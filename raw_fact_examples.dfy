/**
  The rows of the decomposition table. The short rows are stated on their
  literal input. The long rows are stated once for every input of their
  shape (any date, time, activity, category, tags and description that fit
  the grammar), which covers the literal row as one instance. Where a row
  lists only some keys, the lemma still states the whole result.
*/
module RawFactExamples {
  import opened Wrappers
  import opened Chars
  import opened RawFact

  /** A line made of a time information and a body the next character cannot extend. */
  lemma TimedRow(t: string, f: Fields)
    requires IsTimeInfo(t) && f.timeinfo == Some(t) && BodyWellFormed(f)
    requires CannotContinue(t, BodyText(f))
    ensures Decompose(t + BodyText(f)) == Some(f)
  {
    TimeInfoOfJoin(t, BodyText(f));
    DecomposeCharacterized(t + BodyText(f), f);
  }

  /** A line that does not start with a digit has no time information. */
  lemma UntimedRow(s: string, f: Fields)
    requires f.timeinfo == None && BodyWellFormed(f) && s == BodyText(f)
    requires s == [] || !IsDigit(s[0])
    ensures Decompose(s) == Some(f)
  {
    TimeInfoLengthIs(s, 0);
    DecomposeCharacterized(s, f);
  }

  // The four kinds of time information in the table.

  lemma DateTimeInfo(d: string, tm: string)
    requires IsDate(d) && IsTime(tm)
    ensures IsTimeInfo(d + " " + tm + " ")
  {
    DateTimeIsPoint(d, tm);
    SingleIsTimeInfo(d + " " + tm);
  }

  lemma TimeRangeInfo(tm1: string, tm2: string)
    requires IsTime(tm1) && IsTime(tm2)
    ensures IsTimeInfo(tm1 + " - " + tm2 + " ")
  {
    RangeIsTimeInfo(tm1, tm2);
  }

  lemma TimeToDateTimeInfo(tm1: string, d2: string, tm2: string)
    requires IsTime(tm1) && IsDate(d2) && IsTime(tm2)
    ensures IsTimeInfo(tm1 + " - " + d2 + " " + tm2 + " ")
  {
    DateTimeIsPoint(d2, tm2);
    RangeIsTimeInfo(tm1, d2 + " " + tm2);
  }

  lemma DateTimeRangeInfo(d1: string, tm1: string, d2: string, tm2: string)
    requires IsDate(d1) && IsTime(tm1) && IsDate(d2) && IsTime(tm2)
    ensures IsTimeInfo(d1 + " " + tm1 + " - " + d2 + " " + tm2 + " ")
  {
    DateTimeIsPoint(d1, tm1);
    DateTimeIsPoint(d2, tm2);
    RangeIsTimeInfo(d1 + " " + tm1, d2 + " " + tm2);
    assert d1 + " " + tm1 + " - " + (d2 + " " + tm2) + " " == d1 + " " + tm1 + " - " + d2 + " " + tm2 + " ";
  }

  // Short rows, on their literal input.

  lemma DateTimeRow(s: string)
    requires s == "2016-02-01 12:00 "
    ensures Decompose(s) == Some(NoFields.(timeinfo := Some("2016-02-01 12:00 ")))
  {
    DateTimeInfo("2016-02-01", "12:00");
    assert s == "2016-02-01" + " " + "12:00" + " ";
    TimedRow(s, NoFields.(timeinfo := Some(s)));
    assert s + BodyText(NoFields.(timeinfo := Some(s))) == s;
  }

  lemma DateRow(s: string)
    requires s == "2016-02-01 "
    ensures Decompose(s) == Some(NoFields.(timeinfo := Some("2016-02-01 ")))
  {
    SingleIsTimeInfo("2016-02-01");
    assert "2016-02-01" + " " == s;
    TimedRow(s, NoFields.(timeinfo := Some(s)));
    assert s + BodyText(NoFields.(timeinfo := Some(s))) == s;
  }

  lemma TimeRow(s: string)
    requires s == "12:00 "
    ensures Decompose(s) == Some(NoFields.(timeinfo := Some("12:00 ")))
  {
    SingleIsTimeInfo("12:00");
    assert "12:00" + " " == s;
    TimedRow(s, NoFields.(timeinfo := Some(s)));
    assert s + BodyText(NoFields.(timeinfo := Some(s))) == s;
  }

  lemma TimeRangeRow(s: string)
    requires s == "12:00 - 15:00 "
    ensures Decompose(s) == Some(NoFields.(timeinfo := Some("12:00 - 15:00 ")))
  {
    TimeRangeInfo("12:00", "15:00");
    assert s == "12:00" + " - " + "15:00" + " ";
    TimedRow(s, NoFields.(timeinfo := Some(s)));
    assert s + BodyText(NoFields.(timeinfo := Some(s))) == s;
  }

  lemma ActivityAndTagRow(s: string)
    requires s == "a #b"
    ensures Decompose(s) == Some(NoFields.(activity := Some("a"), tags := Some(" #b")))
  {
    UntimedRow(s, NoFields.(activity := Some("a"), tags := Some(" #b")));
  }

  lemma TagWithAtRow(s: string)
    requires s == "a #b@c"
    ensures Decompose(s) == Some(NoFields.(activity := Some("a"), tags := Some(" #b@c")))
  {
    UntimedRow(s, NoFields.(activity := Some("a"), tags := Some(" #b@c")));
  }

  lemma ActivityRow(s: string)
    requires s == "foo"
    ensures Decompose(s) == Some(NoFields.(activity := Some("foo")))
  {
    UntimedRow(s, NoFields.(activity := Some("foo")));
  }

  lemma ActivityAndCategoryRow(s: string)
    requires s == "foo@bar"
    ensures Decompose(s) == Some(NoFields.(activity := Some("foo"), category := Some("@bar")))
  {
    UntimedRow(s, NoFields.(activity := Some("foo"), category := Some("@bar")));
  }

  lemma CategoryRow(s: string)
    requires s == "@bar"
    ensures Decompose(s) == Some(NoFields.(category := Some("@bar")))
  {
    UntimedRow(s, NoFields.(category := Some("@bar")));
  }

  lemma TagRow(s: string)
    requires s == " #t1"
    ensures Decompose(s) == Some(NoFields.(tags := Some(" #t1")))
  {
    UntimedRow(s, NoFields.(tags := Some(" #t1")));
  }

  lemma TagsRow(s: string)
    requires s == " #t1 #t2"
    ensures Decompose(s) == Some(NoFields.(tags := Some(" #t1 #t2")))
  {
    UntimedRow(s, NoFields.(tags := Some(" #t1 #t2")));
  }

  lemma HashesInTagsRow(s: string)
    requires s == " ##t1 #t#2"
    ensures Decompose(s) == Some(NoFields.(tags := Some(" ##t1 #t#2")))
  {
    UntimedRow(s, NoFields.(tags := Some(" ##t1 #t#2")));
  }

  lemma DescriptionRow(s: string)
    requires s == ",lorum_ipsum"
    ensures Decompose(s) == Some(NoFields.(description := Some(",lorum_ipsum")))
  {
    UntimedRow(s, NoFields.(description := Some(",lorum_ipsum")));
  }

  // Long rows, on every input of their shape.

  /**
    A time information alone, as in `2016-02-01 12:00 - 2016-02-03 15:00 `
    and `12:00 - 2016-02-03 15:00 `.
  */
  lemma TimeInfoOnlyShape(t: string)
    requires IsTimeInfo(t)
    ensures Decompose(t) == Some(NoFields.(timeinfo := Some(t)))
  {
    var f := NoFields.(timeinfo := Some(t));
    assert t + BodyText(f) == t;
    TimedRow(t, f);
  }

  /**
    A time information followed by a description only, as in
    `2016-01-01 12:00 ,lorum_ipsum`.
  */
  lemma TimeAndDescriptionShape(t: string, x: string)
    requires IsTimeInfo(t) && IsDescription(x)
    ensures Decompose(t + x) == Some(NoFields.(timeinfo := Some(t), description := Some(x)))
  {
    var f := NoFields.(timeinfo := Some(t), description := Some(x));
    assert BodyText(f) == x;
    TimedRow(t, f);
  }

  /**
    Every segment present, as in `2016-01-01 12:00 foo@bar #t1 #t2,lorum_ipsum`
    and its two range variants. The activity must not start with a digit or a
    dash, which would continue the time information.
  */
  lemma FullShape(t: string, a: string, c: string, g: string, x: string)
    requires IsTimeInfo(t) && IsActivity(a) && !IsDigit(a[0]) && a[0] != '-'
    requires IsCategory(c) && IsTags(g) && IsDescription(x)
    ensures Decompose(t + a + c + g + x) == Some(Fields(Some(t), Some(a), Some(c), Some(g), Some(x)))
  {
    var f := Fields(Some(t), Some(a), Some(c), Some(g), Some(x));
    assert t + BodyText(f) == t + a + c + g + x;
    TimedRow(t, f);
  }

  /**
    The description starts at the first comma and keeps the later ones, as
    in `2016-02-20 12:00 - 2016-02-20 15:00 foo,bar, lorum_ipsum`.
  */
  lemma ActivityAndDescriptionShape(t: string, a: string, x: string)
    requires IsTimeInfo(t) && IsActivity(a) && !IsDigit(a[0]) && a[0] != '-'
    requires IsDescription(x)
    ensures Decompose(t + a + x) == Some(NoFields.(timeinfo := Some(t), activity := Some(a), description := Some(x)))
  {
    var f := NoFields.(timeinfo := Some(t), activity := Some(a), description := Some(x));
    assert t + BodyText(f) == t + a + x;
    TimedRow(t, f);
  }

  /**
    A ` #` opens the tags, which then swallow a following `@`, as in
    `2016-02-20 12:00 - 2016-02-20 15:00 foo #bar@bar #t1 #t2,lorum_ipsum`.
  */
  lemma SpacedHashShape(t: string, a: string, g: string, x: string)
    requires IsTimeInfo(t) && IsActivity(a) && !IsDigit(a[0]) && a[0] != '-'
    requires IsTags(g) && IsDescription(x)
    ensures Decompose(t + a + g + x) == Some(Fields(Some(t), Some(a), None, Some(g), Some(x)))
  {
    var f := Fields(Some(t), Some(a), None, Some(g), Some(x));
    assert t + BodyText(f) == t + a + g + x;
    TimedRow(t, f);
  }

  /**
    A `#` glued to the activity, or a `:` after it, fails the whole line, as
    in `2016-02-20 12:00 - 2016-02-20 15:00 foo#bar@bar #t1 #t2,lorum_ipsum`.
  */
  lemma GluedMarkerShape(t: string, a: string, m: char, more: string)
    requires IsTimeInfo(t) && IsActivity(a) && !IsDigit(a[0]) && a[0] != '-'
    requires m == ':' || (m == '#' && a[|a| - 1] != ' ')
    ensures Decompose(t + a + [m] + more) == None
  {
    var rest := a + [m] + more;
    TimeInfoOfJoin(t, rest);
    assert rest[..|a|] == a;
    GluedMarkerFails(t, rest, |a|);
    assert t + a + [m] + more == t + rest;
  }

  /**
    Malformed: a dash that no time point follows is activity text, as in
    `2016-02-20 12:00 -  foo@bar #t1 #t2,lorum_ipsum`, whose activity is
    `-  foo`.
  */
  lemma DanglingDashShape(p: string, a: string, c: string, g: string, x: string)
    requires IsTimePoint(p) && IsPlain(a) && a != [] && !IsDigit(a[0])
    requires IsCategory(c) && IsTags(g) && IsDescription(x)
    ensures Decompose(p + " " + "- " + a + c + g + x)
         == Some(Fields(Some(p + " "), Some("- " + a), Some(c), Some(g), Some(x)))
  {
    var t := p + " ";
    SingleIsTimeInfo(p);
    var f := Fields(Some(t), Some("- " + a), Some(c), Some(g), Some(x));
    assert IsPlain("- " + a) by {
      assert forall i :: 2 <= i < |"- " + a| ==> ("- " + a)[i] == a[i - 2];
    }
    assert t + BodyText(f) == p + " " + "- " + a + c + g + x;
    TimedRow(t, f);
  }

  /**
    Invalid: a range whose dash is glued to its time points, as in
    `2016-02-20 12:00-2016-02-20 15:00 foo@bar #t1 #t2,lorum_ipsum`. The time
    information stops after the date, and the `:` of the time that follows
    is barred from activity text.
  */
  lemma GluedRangeShape(d: string, hh: string, mm: string, more: string)
    requires IsDate(d) && |hh| == 2 && IsDigit(hh[0]) && IsDigit(hh[1]) && |mm| == 2
    requires more != [] && more[0] == '-'
    ensures Decompose(d + " " + hh + ":" + mm + more) == None
  {
    var t := d + " ";
    var rest := hh + ":" + mm + more;
    SingleIsTimeInfo(d);
    assert rest[5] == more[0];
    TimeInfoOfJoin(t, rest);
    assert rest[..2] == hh;
    GluedMarkerFails(t, rest, 2);
    assert d + " " + hh + ":" + mm + more == t + rest;
  }
}
