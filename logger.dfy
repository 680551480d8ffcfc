/** The device state that survives from one `loop()` to the next: the data
    file /temps.csv (whether it exists, and its bytes) and the time of the
    last measurement, with the operations of main.cpp that change them. */
module Logger {
  import opened Wrappers
  import opened Clock
  import opened RecordFormat
  import opened LogFile
  import opened Replay
  import opened Publish

  /** DEVICE_DISCONNECTED_C (-127 degrees), in hundredths of a degree. */
  const DeviceDisconnected: int := -12700

  /** Both probes gave a reading: neither is the disconnected sentinel. */
  predicate ReadingsValid(t1: int, t2: int) {
    t1 != DeviceDisconnected && t2 != DeviceDisconnected
  }

  /** The replay gets past its early returns: WiFi and MQTT are up, the data
      file opens for reading and the staging file /tmp.csv for writing. */
  predicate ReplayRuns(connected: bool, srcOpens: bool, tmpOpens: bool) {
    connected && srcOpens && tmpOpens
  }

  /** The line storeToFS writes: the stamp, the two temperatures, and the
      signal strength when WiFi is up (0 otherwise), then a newline. */
  function Record(stamp: U32, t1: int, t2: int, wifiUp: bool, rssi: int): string {
    FormatLine(Sample(stamp, t1, t2, if wifiUp then rssi else 0)) + "\n"
  }

  /** A line the device wrote, however many times it was requeued, still
      parses to the fields it was written with. */
  lemma RequeuedRecordAccepted(s: Sample, requeues: nat)
    ensures AcceptLine(FormatLine(s) + CarriageReturns(requeues)) == Some(FieldsOf(s))
  {
    FormatThenAccept(s, CarriageReturns(requeues));
  }

  function CarriageReturns(n: nat): (t: string)
    ensures |t| == n && forall i :: 0 <= i < n ==> t[i] == '\r'
  {
    if n == 0 then [] else CarriageReturns(n - 1) + "\r"
  }

  /** End to end: after a sample is appended to a file of complete lines,
      a replay in which every publish succeeds sends the sample's two
      temperatures as its last two publishes and leaves the file empty. */
  lemma StoredSamplePublishedLast(content: string, s: Sample, acks: seq<bool>)
    requires Complete(content)
    requires var c := content + FormatLine(s) + "\n";
      AllAcked(acks, 2 * |Records(AcceptLine, ReadLines(c))|)
    ensures var c := content + FormatLine(s) + "\n";
      var r := Drain(AcceptLine, ReadLines(c), acks);
      && ReplayedFile(AcceptLine, c, acks) == []
      && |r.attempts| >= 2 && r.attempts[|r.attempts| - 2..] == Pair(FieldsOf(s))
  {
    var c := content + FormatLine(s) + "\n";
    var lines := ReadLines(c);
    assert lines == ReadLines(content) + [FormatLine(s)] by {
      FormatLineChars(s);
      AppendAfterNewline(content, FormatLine(s));
    }
    assert AcceptLine(FormatLine(s)) == Some(FieldsOf(s)) by {
      FormatThenAccept(s, []);
      assert FormatLine(s) + [] == FormatLine(s);
    }
    LastLinePublishedLast(AcceptLine, ReadLines(content), FormatLine(s), acks);
  }

  class Logger {
    /** LittleFS.exists("/temps.csv") */
    var fileExists: bool
    /** The bytes of /temps.csv. */
    var data: string
    /** `lastPublish`: millis() at the last measurement cycle. */
    var lastPublish: U32

    /** A missing file has no bytes. */
    predicate Valid()
      reads this
    {
      !fileExists ==> data == []
    }

    /** Power-up: the file system holds the data file of the last run, or
        none, and `lastPublish` starts at 0. */
    constructor Boot(file: Option<string>)
      ensures Valid()
      ensures fileExists == file.Some? && data == (if file.Some? then file.value else [])
      ensures lastPublish == 0
    {
      fileExists := file.Some?;
      data := if file.Some? then file.value else [];
      lastPublish := 0;
    }

    /** hasStoredData: the data file exists and is not empty, that is, the
        replay has a line to read. */
    function HasStoredData(): (b: bool)
      reads this
      ensures b <==> fileExists && ReadLines(data) != []
    {
      ReadLinesSize(data);
      fileExists && |data| > 0
    }

    /** storeToFS: open the data file for appending (which creates it) and
        write one record line; when the open fails nothing changes. */
    method StoreToFS(t1: int, t2: int, stamp: U32, wifiUp: bool, rssi: int, opens: bool)
      requires Valid()
      modifies this
      ensures Valid() && lastPublish == old(lastPublish)
      ensures if opens then fileExists && data == old(data) + Record(stamp, t1, t2, wifiUp, rssi)
              else fileExists == old(fileExists) && data == old(data)
      ensures Complete(old(data)) ==> Complete(data)
    {
      if !opens {
        return;
      }
      var rssiNow := if wifiUp then rssi else 0;
      data := data + FormatLine(Sample(stamp, t1, t2, rssiNow)) + "\n";
      fileExists := true;
    }

    /** publishStoredData: read the data file line by line; skip short and
        malformed lines; publish feed 1 then feed 2; on the first failed
        publish write that line and the unread rest to /tmp.csv and stop;
        then /tmp.csv replaces the data file. The k-th publish call succeeds
        when Ack(acks, k). */
    method PublishStoredData(connected: bool, srcOpens: bool, tmpOpens: bool, acks: seq<bool>)
      returns (attempts: seq<Attempt>)
      requires Valid()
      modifies this
      ensures Valid() && lastPublish == old(lastPublish)
      ensures if ReplayRuns(connected, srcOpens, tmpOpens) && old(fileExists) then
          && fileExists
          && data == ReplayedFile(AcceptLine, old(data), acks)
          && attempts == Drain(AcceptLine, ReadLines(old(data)), acks).attempts
        else fileExists == old(fileExists) && data == old(data) && attempts == []
      ensures Complete(old(data)) ==> Complete(data)
    {
      attempts := [];
      if !connected {
        return;
      }
      if !fileExists || !srcOpens {
        return;
      }
      if !tmpOpens {
        return;
      }
      var staged;
      staged, attempts := ReadAndRequeue(AcceptLine, ScanLine, data, acks);
      if Complete(data) {
        ReplayedFileComplete(AcceptLine, data, acks);
      }
      data := staged;
      fileExists := true;
    }

    /** One pass of loop(): when PUBLISH_INTERVAL has elapsed since the last
        cycle (modulo 2^32), restart the interval and store the two readings
        unless one is the disconnected sentinel; then replay the backlog if
        the data file has any. */
    method Loop(now: U32, reading1: int, reading2: int, stamp: U32, wifiUp: bool, rssi: int,
                appendOpens: bool, connected: bool, srcOpens: bool, tmpOpens: bool, acks: seq<bool>)
      returns (attempts: seq<Attempt>)
      requires Valid()
      modifies this
      ensures Valid()
      ensures lastPublish == if Due(now, old(lastPublish)) then now else old(lastPublish)
      ensures var stored := Due(now, old(lastPublish)) && ReadingsValid(reading1, reading2) && appendOpens;
        var backlog := if stored then old(data) + Record(stamp, reading1, reading2, wifiUp, rssi) else old(data);
        var present := old(fileExists) || stored;
        if present && backlog != [] && ReplayRuns(connected, srcOpens, tmpOpens) then
          && fileExists
          && data == ReplayedFile(AcceptLine, backlog, acks)
          && attempts == Drain(AcceptLine, ReadLines(backlog), acks).attempts
        else fileExists == present && data == backlog && attempts == []
      ensures Complete(old(data)) ==> Complete(data)
    {
      if Due(now, lastPublish) {
        lastPublish := now;
        if ReadingsValid(reading1, reading2) {
          StoreToFS(reading1, reading2, stamp, wifiUp, rssi, appendOpens);
        }
      }
      attempts := [];
      if HasStoredData() {
        attempts := PublishStoredData(connected, srcOpens, tmpOpens, acks);
      }
    }
  }
}
