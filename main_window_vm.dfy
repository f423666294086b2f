/**
 * The parts of the main window's view model that keep state of their own:
 * the log panel, which keeps the newest hundred general log lines and their
 * joined text, and the counter that lets every fifth IMU-carrying extended
 * event through to the IMU charts.
 */
module MainWindow {
  import opened Text
  import opened Rings
  import opened LogFilter
  import opened Wrappers

  const MaxLogLines := 100
  const ImuDownsampleFactor := 5
  /** `Environment.NewLine` on Windows. */
  const NewLine := "\r\n"

  /** `ShouldShowLog`: the panel keeps only general messages. */
  predicate ShouldShowLog(message: string)
  {
    IsGeneral(KeywordsOf(Lower(message)))
  }

  /** The panel's test is the log window's filter with only General ticked. */
  lemma ShouldShowLogIsGeneralFilter(message: string)
    ensures ShouldShowLog(message) <==> ShouldShow(Some(message), OnlyGeneral)
    ensures ShouldShowLog(message) <==> forall b: Box :: b != GeneralBox ==> !InBox(Lower(message), b)
  {
    OnlyGeneralHidesKeywords(message);
    KeywordsBoxes(Lower(message));
  }

  /** `$"[{DateTime.Now:HH:mm:ss}] {message}"`, with the clock's fields as parameters. */
  function Stamped(hour: nat, minute: nat, second: nat, message: string): (line: string)
    requires hour < 24 && minute < 60 && second < 60
    ensures |line| == 11 + |message| && line[|line| - |message|..] == message
    ensures line[0] == '[' && line[3] == ':' && line[6] == ':' && line[9..11] == "] "
  {
    Pad2Value(hour);
    Pad2Value(minute);
    Pad2Value(second);
    "[" + Pad2(hour) + ":" + Pad2(minute) + ":" + Pad2(second) + "] " + message
  }

  /** Dropping the oldest of more than `n` elements keeps the newest `n`. */
  lemma LastDropFirst<T>(s: seq<T>, n: nat)
    requires |s| > n
    ensures Last(s[1..], n) == Last(s, n)
  {
    assert s[1..][|s| - 1 - n..] == s[|s| - n..];
  }

  class MainWindowViewModel {
    /** `_logList`, oldest first. */
    var logList: seq<string>
    /** `LogMessages`, the text the log panel binds to. */
    var logMessages: string
    var imuSampleCounter: int
    /** IMU-carrying extended events since the counter was last reset. */
    ghost var imuEvents: nat

    /** The panel text is the list joined, the list is bounded, the counter counts modulo five. */
    ghost predicate Valid()
      reads this
    {
      |logList| <= MaxLogLines && logMessages == Join(NewLine, logList) &&
      imuSampleCounter == imuEvents % ImuDownsampleFactor
    }

    constructor ()
      ensures Valid() && logList == [] && logMessages == "" && imuSampleCounter == 0
    {
      logList := [];
      logMessages := "";
      imuSampleCounter := 0;
      imuEvents := 0;
    }

    /**
     * `OnLogMessage`, run as the dispatcher runs it: a general message is
     * stamped with the clock and appended, the list is cut back to the
     * newest hundred and the panel text rebuilt; any other message changes
     * nothing here.
     */
    method OnLogMessage(message: string, hour: nat, minute: nat, second: nat)
      requires Valid() && hour < 24 && minute < 60 && second < 60
      modifies this`logList, this`logMessages
      ensures Valid()
      ensures ShouldShowLog(message) ==>
        logList == Last(old(logList) + [Stamped(hour, minute, second, message)], MaxLogLines)
      ensures ShouldShowLog(message) ==> logList[|logList| - 1] == Stamped(hour, minute, second, message)
      ensures !ShouldShowLog(message) ==> logList == old(logList) && logMessages == old(logMessages)
    {
      var timestamped := Stamped(hour, minute, second, message);
      if ShouldShowLog(message) {
        ghost var full := logList + [timestamped];
        logList := logList + [timestamped];
        while |logList| > MaxLogLines
          invariant Last(logList, MaxLogLines) == Last(full, MaxLogLines)
          invariant |logList| > 0 && logList[|logList| - 1] == timestamped
          decreases |logList|
        {
          LastDropFirst(logList, MaxLogLines);
          logList := logList[1..];
        }
        logMessages := Join(NewLine, logList);
      }
    }

    method ClearLogs()
      requires Valid()
      modifies this`logList, this`logMessages
      ensures Valid() && logList == [] && logMessages == ""
    {
      logList := [];
      logMessages := "";
    }

    /**
     * The IMU part of `OnExtendedDataReceived`: returns whether the six IMU
     * charts get a point (the averages themselves are not modelled).
     */
    method OnExtendedDataReceived(hasImuSamples: bool) returns (imuPoint: bool)
      requires Valid()
      modifies this`imuSampleCounter, this`imuEvents
      ensures Valid()
      ensures 0 <= imuSampleCounter < ImuDownsampleFactor
      ensures imuEvents == old(imuEvents) + (if hasImuSamples then 1 else 0)
      ensures imuPoint <==> hasImuSamples && imuEvents % ImuDownsampleFactor == 0
      ensures imuPoint ==> imuSampleCounter == 0
    {
      imuPoint := false;
      if hasImuSamples {
        imuEvents := imuEvents + 1;
        imuSampleCounter := imuSampleCounter + 1;
        if imuSampleCounter >= ImuDownsampleFactor {
          imuSampleCounter := 0;
          imuPoint := true;
        }
      }
    }

    /** The counter reset in `StartActivity`; the rest of it is not modelled. */
    method StartActivity()
      requires Valid()
      modifies this`imuSampleCounter, this`imuEvents
      ensures Valid() && imuSampleCounter == 0 && imuEvents == 0
    {
      imuSampleCounter := 0;
      imuEvents := 0;
    }

    /** The same reset in `StartStretchStream`, which does nothing while no device is selected. */
    method StartStretchStream(hasSelection: bool)
      requires Valid()
      modifies this`imuSampleCounter, this`imuEvents
      ensures Valid()
      ensures hasSelection ==> imuSampleCounter == 0 && imuEvents == 0
      ensures !hasSelection ==> imuSampleCounter == old(imuSampleCounter) && imuEvents == old(imuEvents)
    {
      if hasSelection {
        imuSampleCounter := 0;
        imuEvents := 0;
      }
    }
  }
}
