/** The eMMC health decoders of mtk_meta_logic.cpp (`parseHealthStatus`,
    `parseLifeTime`): labels for PRE_EOL_INFO and DEVICE_LIFE_TIME_EST_TYP_A/B,
    EXT_CSD bytes 267, 268 and 269 of JEDEC eMMC 5.0 (JESD84-B50). */
module EmmcHealth {

  import opened Bytes

  /** The PRE_EOL_INFO states JEDEC eMMC 5.0 defines (values 1, 2 and 3). */
  datatype PreEol = Normal | Warning | Urgent

  function PreEolState(value: int): Option<PreEol>
  {
    if value == 1 then Some(Normal)
    else if value == 2 then Some(Warning)
    else if value == 3 then Some(Urgent)
    else None
  }

  function PreEolName(state: PreEol): string
  {
    match state
    case Normal => "Normal"
    case Warning => "Warning"
    case Urgent => "Urgent"
  }

  const UNKNOWN_HEALTH: string := "Unknown"

  // The three state labels, emoji included.
  const NORMAL_LABEL: string := "\U{2705} Normal (Good)"
  const WARNING_LABEL: string := "\U{26A0}\U{FE0F} Warning (Consumed < 80%)"
  const URGENT_LABEL: string := "\U{274C} Urgent (Consumed > 90% - Backup Data!)"

  /** `parseHealthStatus`. */
  function ParseHealthStatus(value: int): (text: string)
    ensures text == UNKNOWN_HEALTH <==> !(1 <= value <= 3)
  {
    if value == 0x01 then NORMAL_LABEL
    else if value == 0x02 then WARNING_LABEL
    else if value == 0x03 then URGENT_LABEL
    else UNKNOWN_HEALTH
  }

  lemma NormalLabelNamesState()
    ensures HasSub(ParseHealthStatus(1), PreEolName(Normal))
  {
    var text := NORMAL_LABEL;
    assert text[2] == 'N' && text[3] == 'o' && text[4] == 'r';
    assert text[5] == 'm' && text[6] == 'a' && text[7] == 'l';
    assert OccursAt(text, PreEolName(Normal), 2);
  }

  lemma WarningLabelNamesState()
    ensures HasSub(ParseHealthStatus(2), PreEolName(Warning))
  {
    var text := WARNING_LABEL;
    assert text[3] == 'W' && text[4] == 'a' && text[5] == 'r' && text[6] == 'n';
    assert text[7] == 'i' && text[8] == 'n' && text[9] == 'g';
    assert OccursAt(text, PreEolName(Warning), 3);
  }

  lemma UrgentLabelNamesState()
    ensures HasSub(ParseHealthStatus(3), PreEolName(Urgent))
  {
    var text := URGENT_LABEL;
    assert text[2] == 'U' && text[3] == 'r' && text[4] == 'g';
    assert text[5] == 'e' && text[6] == 'n' && text[7] == 't';
    assert OccursAt(text, PreEolName(Urgent), 2);
  }

  /** A value gets a proper label iff it is a PRE_EOL_INFO state JEDEC defines, and
      that label names the state. */
  lemma HealthLabelNamesState(value: int)
    ensures PreEolState(value).Some? <==> ParseHealthStatus(value) != UNKNOWN_HEALTH
    ensures PreEolState(value).Some? ==>
      HasSub(ParseHealthStatus(value), PreEolName(PreEolState(value).value))
  {
    if value == 1 {
      NormalLabelNamesState();
    } else if value == 2 {
      WarningLabelNamesState();
    } else if value == 3 {
      UrgentLabelNamesState();
    }
  }

  /** The three state labels are distinct. */
  lemma HealthLabelsDistinct(value: int, other: int)
    requires 1 <= value <= 3 && 1 <= other <= 3 && value != other
    ensures ParseHealthStatus(value) != ParseHealthStatus(other)
  {
  }

  const LIFE_UNREAD: string := "Reading..."

  /** `parseLifeTime`. */
  function ParseLifeTime(value: int): (text: string)
    ensures text == LIFE_UNREAD <==> !(1 <= value <= 11)
  {
    if value == 0x01 then "0% - 10% Used (Excellent)"
    else if value == 0x02 then "10% - 20% Used (Good)"
    else if value == 0x03 then "20% - 30% Used (Normal)"
    else if value == 0x04 then "30% - 40% Used (Normal)"
    else if value == 0x05 then "40% - 50% Used (Normal)"
    else if value == 0x06 then "50% - 60% Used (Normal)"
    else if value == 0x07 then "60% - 70% Used (Warning)"
    else if value == 0x08 then "70% - 80% Used (Warning)"
    else if value == 0x09 then "80% - 90% Used (Warning)"
    else if value == 0x0A then "90% - 100% Used (Urgent)"
    else if value == 0x0B then "Exceeded Maximum Life (Dead)"
    else LIFE_UNREAD
  }

  /** The decimal text of `t * 10` percent, for `t` in 0 to 10. */
  function Tens(t: nat): (s: string)
    requires t <= 10
    ensures |s| == (if t == 0 then 1 else if t == 10 then 3 else 2)
  {
    if t == 0 then "0" else if t == 10 then "100" else [('0' as int + t) as char, '0']
  }

  /** What JEDEC eMMC 5.0 says DEVICE_LIFE_TIME_EST value `v` (1 to 10) means: between
      (v-1)*10 and v*10 percent of the device's life used. */
  function UsedRange(v: int): string
    requires 1 <= v <= 10
  {
    Tens(v - 1) + "% - " + Tens(v) + "% Used"
  }

  lemma LifeTimeLabel1()
    ensures UsedRange(1) <= ParseLifeTime(1)
  {
    assert UsedRange(1) == ParseLifeTime(1)[..|UsedRange(1)|];
  }

  lemma LifeTimeLabel2()
    ensures UsedRange(2) <= ParseLifeTime(2)
  {
    assert UsedRange(2) == ParseLifeTime(2)[..|UsedRange(2)|];
  }

  lemma LifeTimeLabel3()
    ensures UsedRange(3) <= ParseLifeTime(3)
  {
    assert UsedRange(3) == ParseLifeTime(3)[..|UsedRange(3)|];
  }

  lemma LifeTimeLabel4()
    ensures UsedRange(4) <= ParseLifeTime(4)
  {
    assert UsedRange(4) == ParseLifeTime(4)[..|UsedRange(4)|];
  }

  lemma LifeTimeLabel5()
    ensures UsedRange(5) <= ParseLifeTime(5)
  {
    assert UsedRange(5) == ParseLifeTime(5)[..|UsedRange(5)|];
  }

  lemma LifeTimeLabel6()
    ensures UsedRange(6) <= ParseLifeTime(6)
  {
    assert UsedRange(6) == ParseLifeTime(6)[..|UsedRange(6)|];
  }

  lemma LifeTimeLabel7()
    ensures UsedRange(7) <= ParseLifeTime(7)
  {
    assert UsedRange(7) == ParseLifeTime(7)[..|UsedRange(7)|];
  }

  lemma LifeTimeLabel8()
    ensures UsedRange(8) <= ParseLifeTime(8)
  {
    assert UsedRange(8) == ParseLifeTime(8)[..|UsedRange(8)|];
  }

  lemma LifeTimeLabel9()
    ensures UsedRange(9) <= ParseLifeTime(9)
  {
    assert UsedRange(9) == ParseLifeTime(9)[..|UsedRange(9)|];
  }

  lemma LifeTimeLabel10()
    ensures UsedRange(10) <= ParseLifeTime(10)
  {
    assert UsedRange(10) == ParseLifeTime(10)[..|UsedRange(10)|];
  }

  /** The life-time labels follow the JEDEC encoding in increasing wear: value v in 1..10
      names the range (v-1)*10 % to v*10 %, value 11 the exceeded-life state. */
  lemma LifeTimeLabelStatesRange(v: int)
    requires 1 <= v <= 11
    ensures v <= 10 ==> UsedRange(v) <= ParseLifeTime(v)
    ensures v == 11 ==> "Exceeded" <= ParseLifeTime(v)
  {
    if v == 1 { LifeTimeLabel1(); }
    else if v == 2 { LifeTimeLabel2(); }
    else if v == 3 { LifeTimeLabel3(); }
    else if v == 4 { LifeTimeLabel4(); }
    else if v == 5 { LifeTimeLabel5(); }
    else if v == 6 { LifeTimeLabel6(); }
    else if v == 7 { LifeTimeLabel7(); }
    else if v == 8 { LifeTimeLabel8(); }
    else if v == 9 { LifeTimeLabel9(); }
    else if v == 10 { LifeTimeLabel10(); }
  }

  /** The eleven life-time labels are distinct. */
  lemma LifeTimeLabelsDistinct(v: int, w: int)
    requires 1 <= v <= 11 && 1 <= w <= 11 && v != w
    ensures ParseLifeTime(v) != ParseLifeTime(w)
  {
  }
}
