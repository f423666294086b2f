/**
 * The log window's filter: a line is sorted into categories by the keywords
 * its lowercased text contains, and it is shown when the check box of one
 * of its categories is ticked. A line with no keyword is "general".
 */
module LogFilter {
  import opened Wrappers
  import opened Text

  /** The keyword tests on a lowercased line. */
  datatype Keywords = Keywords(battery: bool, imu: bool, breath: bool, stretch: bool,
                               pressure: bool, temp: bool, hr: bool)

  function KeywordsOf(text: string): Keywords
  {
    Keywords(Contains(text, "battery"), Contains(text, "imu"), Contains(text, "breath"),
             Contains(text, "stretch"), Contains(text, "pressure"), Contains(text, "temp"),
             Contains(text, "hr") || Contains(text, "heart rate"))
  }

  predicate IsGeneral(k: Keywords)
  {
    !(k.battery || k.imu || k.breath || k.stretch || k.pressure || k.temp || k.hr)
  }

  /** The states of the window's seven check boxes. */
  datatype Checks = Checks(battery: bool, imu: bool, breath: bool, stretch: bool,
                           pressureTemp: bool, hr: bool, general: bool)

  /** `ShouldShow`: the view's item may be a non-string, here `None`. */
  function ShouldShow(item: Option<string>, checks: Checks): (shown: bool)
    ensures item.None? ==> !shown
  {
    if item.None? then false
    else
      var k := KeywordsOf(Lower(item.value));
      if k.battery && checks.battery then true
      else if k.imu && checks.imu then true
      else if k.breath && checks.breath then true
      else if k.stretch && checks.stretch then true
      else if (k.pressure || k.temp) && checks.pressureTemp then true
      else if k.hr && checks.hr then true
      else if IsGeneral(k) && checks.general then true
      else false
  }

  /** The check boxes, as categories a line can belong to. */
  datatype Box = BatteryBox | ImuBox | BreathBox | StretchBox | PressureTempBox | HrBox | GeneralBox

  /** The keywords that put a line in a box; a general line has none of them. */
  function BoxKeywords(b: Box): seq<string>
  {
    match b
    case BatteryBox => ["battery"]
    case ImuBox => ["imu"]
    case BreathBox => ["breath"]
    case StretchBox => ["stretch"]
    case PressureTempBox => ["pressure", "temp"]
    case HrBox => ["hr", "heart rate"]
    case GeneralBox => []
  }

  predicate Mentions(text: string, b: Box)
  {
    exists w | w in BoxKeywords(b) :: Contains(text, w)
  }

  /** The line belongs to `b`: it mentions one of `b`'s keywords, or `b` is General and it mentions none. */
  predicate InBox(text: string, b: Box)
  {
    if b == GeneralBox then forall other: Box :: !Mentions(text, other) else Mentions(text, b)
  }

  predicate Ticked(checks: Checks, b: Box)
  {
    match b
    case BatteryBox => checks.battery
    case ImuBox => checks.imu
    case BreathBox => checks.breath
    case StretchBox => checks.stretch
    case PressureTempBox => checks.pressureTemp
    case HrBox => checks.hr
    case GeneralBox => checks.general
  }

  /** The keyword flags say which boxes the lowercased line belongs to. */
  lemma KeywordsBoxes(text: string)
    ensures InBox(text, BatteryBox) == KeywordsOf(text).battery
    ensures InBox(text, ImuBox) == KeywordsOf(text).imu
    ensures InBox(text, BreathBox) == KeywordsOf(text).breath
    ensures InBox(text, StretchBox) == KeywordsOf(text).stretch
    ensures InBox(text, PressureTempBox) == (KeywordsOf(text).pressure || KeywordsOf(text).temp)
    ensures InBox(text, HrBox) == KeywordsOf(text).hr
    ensures InBox(text, GeneralBox) == IsGeneral(KeywordsOf(text))
  {
    assert BoxKeywords(PressureTempBox)[0] == "pressure" && BoxKeywords(PressureTempBox)[1] == "temp";
    assert BoxKeywords(HrBox)[0] == "hr" && BoxKeywords(HrBox)[1] == "heart rate";
    assert Mentions(text, BatteryBox) == Contains(text, "battery") by {
      assert BoxKeywords(BatteryBox)[0] == "battery";
    }
    assert Mentions(text, ImuBox) == Contains(text, "imu") by {
      assert BoxKeywords(ImuBox)[0] == "imu";
    }
    assert Mentions(text, BreathBox) == Contains(text, "breath") by {
      assert BoxKeywords(BreathBox)[0] == "breath";
    }
    assert Mentions(text, StretchBox) == Contains(text, "stretch") by {
      assert BoxKeywords(StretchBox)[0] == "stretch";
    }
    assert !Mentions(text, GeneralBox);
    if !IsGeneral(KeywordsOf(text)) {
      var k := KeywordsOf(text);
      var b := if k.battery then BatteryBox else if k.imu then ImuBox else if k.breath then BreathBox
               else if k.stretch then StretchBox else if k.pressure || k.temp then PressureTempBox else HrBox;
      assert Mentions(text, b);
    }
  }

  /** A string is shown exactly when one of the boxes it belongs to is ticked. */
  lemma ShownIffTickedBox(line: string, checks: Checks)
    ensures ShouldShow(Some(line), checks) <==> exists b: Box :: InBox(Lower(line), b) && Ticked(checks, b)
  {
    var text := Lower(line);
    KeywordsBoxes(text);
    if ShouldShow(Some(line), checks) {
      var k := KeywordsOf(text);
      var b := if k.battery && checks.battery then BatteryBox
               else if k.imu && checks.imu then ImuBox
               else if k.breath && checks.breath then BreathBox
               else if k.stretch && checks.stretch then StretchBox
               else if (k.pressure || k.temp) && checks.pressureTemp then PressureTempBox
               else if k.hr && checks.hr then HrBox
               else GeneralBox;
      assert InBox(text, b) && Ticked(checks, b);
    }
  }

  /** Only the lowercased text matters: lines equal up to case are shown alike. */
  lemma CaseInsensitive(a: string, b: string, checks: Checks)
    requires Lower(a) == Lower(b)
    ensures ShouldShow(Some(a), checks) == ShouldShow(Some(b), checks)
    ensures ShouldShow(Some(Lower(a)), checks) == ShouldShow(Some(a), checks)
  {
    LowerIdempotent(a);
  }

  /** A line with no keyword is shown exactly when General is ticked. */
  lemma GeneralShownIffChecked(line: string, checks: Checks)
    requires IsGeneral(KeywordsOf(Lower(line)))
    ensures ShouldShow(Some(line), checks) <==> checks.general
  {
  }

  const OnlyGeneral := Checks(false, false, false, false, false, false, true)

  /** With only General ticked, exactly the lines without a keyword are shown. */
  lemma OnlyGeneralHidesKeywords(line: string)
    ensures ShouldShow(Some(line), OnlyGeneral) <==> IsGeneral(KeywordsOf(Lower(line)))
  {
  }

  /** "hr" is matched anywhere, so a line about a thread is an HR line. */
  lemma HrMatchesInsideWords()
    ensures ShouldShow(Some("Thread started"), Checks(false, false, false, false, false, true, false))
    ensures !ShouldShow(Some("Thread started"), OnlyGeneral)
  {
    var text := Lower("Thread started");
    assert text[1..3] == "hr";
    assert OccursAt(text, "hr", 1);
  }
}
