/** The season label: a football season runs from August to July, so a date in
    August or later belongs to the season that starts that year. The date is a
    parameter here; the scraper reads the system clock. */
module Season {
  import opened Wrappers
  import opened Text

  /** A calendar date within the range Python's `date` type allows. */
  datatype Date = Date(year: int, month: int, day: int)

  predicate ValidDate(d: Date)
  {
    1 <= d.year <= 9999 && 1 <= d.month <= 12 && 1 <= d.day <= 31
  }

  /** Reads a label of the form "<digits>-<digits>" back as its two years. */
  function ParseSeason(s: string): Option<(nat, nat)>
  {
    var parts := Split(s, '-');
    if |parts| == 2 && ParseNat(parts[0]).Some? && ParseNat(parts[1]).Some? then
      Some((ParseNat(parts[0]).value, ParseNat(parts[1]).value))
    else None
  }

  /** The label of the season that starts in `first`: "<first>-<first + 1>". */
  function SeasonLabel(first: nat): (name: string)
    ensures ParseSeason(name) == Some((first, first + 1))
  {
    var a, b := ShowNat(first), ShowNat(first + 1);
    SplitJoin([a, b], '-');
    assert Join([a, b], '-') == a + "-" + b;
    ParseShowNat(first);
    ParseShowNat(first + 1);
    a + "-" + b
  }

  /** `get_current_season`: "Y-(Y+1)" from August on, "(Y-1)-Y" before. */
  function CurrentSeason(today: Date): (season: string)
    requires ValidDate(today)
    ensures ParseSeason(season) ==
      Some(if today.month >= 8 then (today.year, today.year + 1) else (today.year - 1, today.year))
  {
    SeasonLabel(if today.month >= 8 then today.year else today.year - 1)
  }

  /** Two dates in the same August-to-July window get the same label, and the
      label changes between July 31 and August 1. */
  lemma SeasonWindow(d1: Date, d2: Date)
    requires ValidDate(d1) && ValidDate(d2)
    ensures CurrentSeason(d1) == CurrentSeason(d2) <==>
      (if d1.month >= 8 then d1.year else d1.year - 1) ==
      (if d2.month >= 8 then d2.year else d2.year - 1)
  {
    var s1, s2 := CurrentSeason(d1), CurrentSeason(d2);
    if s1 == s2 {
      assert ParseSeason(s1) == ParseSeason(s2);
    }
  }
}
