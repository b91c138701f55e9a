/**
  Decomposition of a raw fact entry line (`decompose_raw_fact_string`) into
  up to five optional segments: time information, activity, `@category`,
  ` #tags` and `,description`.

  The scanner first tries the prefixes that may be a time information,
  longest first: a time point or a time range followed by a space. It then
  scans the rest of the line once, splitting it at marker characters. The result is either every
  segment or nothing at all.
*/
module RawFact {
  import opened Wrappers
  import opened Chars

  /** The segments of one entry line; each present segment is a verbatim span of it. */
  datatype Fields = Fields(
    timeinfo: Option<string>,
    activity: Option<string>,
    category: Option<string>,
    tags: Option<string>,
    description: Option<string>)

  const NoFields := Fields(None, None, None, None, None)

  function Text(o: Option<string>): string {
    if o.Some? then o.value else ""
  }

  /** The segments joined back, in the order they appear in an entry line. */
  function TailText(f: Fields): string { Text(f.tags) + Text(f.description) }
  function CategoryText(f: Fields): string { Text(f.category) + TailText(f) }
  function BodyText(f: Fields): string { Text(f.activity) + CategoryText(f) }
  function Joined(f: Fields): string { Text(f.timeinfo) + BodyText(f) }

  // ---------------------------------------------------------------------
  // Time information: `P ` or `P - Q ` where P and Q are time points.

  /** `YYYY-MM-DD` */
  predicate IsDate(p: string) {
    |p| == 10 && IsDigit(p[0]) && IsDigit(p[1]) && IsDigit(p[2]) && IsDigit(p[3]) && p[4] == '-' &&
    IsDigit(p[5]) && IsDigit(p[6]) && p[7] == '-' && IsDigit(p[8]) && IsDigit(p[9])
  }

  /** `HH:MM` */
  predicate IsTime(p: string) {
    |p| == 5 && IsDigit(p[0]) && IsDigit(p[1]) && p[2] == ':' && IsDigit(p[3]) && IsDigit(p[4])
  }

  /** `YYYY-MM-DD HH:MM` */
  predicate IsDateTime(p: string) {
    |p| == 16 && IsDate(p[..10]) && p[10] == ' ' && IsTime(p[11..])
  }

  predicate IsTimePoint(p: string) { IsDate(p) || IsTime(p) || IsDateTime(p) }

  /** A single time point and its trailing space. */
  predicate IsSingleTimeInfo(t: string) {
    0 < |t| && t[|t| - 1] == ' ' && IsTimePoint(t[..|t| - 1])
  }

  /** `P - Q ` whose start point P has length n. */
  predicate IsRangeAt(t: string, n: nat) {
    n + 3 < |t| && t[|t| - 1] == ' ' &&
    IsTimePoint(t[..n]) && t[n..n + 3] == " - " && IsTimePoint(t[n + 3..|t| - 1])
  }

  /** A range: the separator is exactly space, dash, space. */
  predicate IsRangeTimeInfo(t: string) {
    IsRangeAt(t, 5) || IsRangeAt(t, 10) || IsRangeAt(t, 16)
  }

  predicate IsTimeInfo(t: string) { IsSingleTimeInfo(t) || IsRangeTimeInfo(t) }

  /** `s` starts with a time information of length m. */
  predicate TimeInfoPrefix(s: string, m: nat) { m <= |s| && IsTimeInfo(s[..m]) }

  /** No time information is longer than a range of two dates with times. */
  const MaxTimeInfoLength: nat := 36

  lemma TimeInfoBounded(t: string)
    requires IsTimeInfo(t)
    ensures |t| <= MaxTimeInfoLength
  {
  }

  /** The longest time information among the first m characters of `s`, or 0. */
  function LongestTimeInfoUpTo(s: string, m: nat): (n: nat)
    requires m <= |s|
    ensures n <= m
    ensures n > 0 ==> TimeInfoPrefix(s, n)
    ensures forall k :: n < k <= m ==> !TimeInfoPrefix(s, k)
  {
    if m == 0 then 0
    else if TimeInfoPrefix(s, m) then m
    else LongestTimeInfoUpTo(s, m - 1)
  }

  /** Length of the longest time information `s` starts with, 0 when there is none. */
  function TimeInfoLength(s: string): (n: nat)
    ensures n <= |s|
    ensures n > 0 ==> TimeInfoPrefix(s, n)
    ensures forall k :: n < k <= |s| ==> !TimeInfoPrefix(s, k)
  {
    var bound := if |s| < MaxTimeInfoLength then |s| else MaxTimeInfoLength;
    var n := LongestTimeInfoUpTo(s, bound);
    assert forall k :: bound < k <= |s| ==> !TimeInfoPrefix(s, k) by {
      forall k | bound < k <= |s| && TimeInfoPrefix(s, k) ensures false {
        TimeInfoBounded(s[..k]);
      }
    }
    n
  }

  // What may follow a space inside a time information; used to show that
  // a time information cannot be extended past a given point.

  lemma PointStartsWithDigit(p: string)
    requires IsTimePoint(p)
    ensures IsDigit(p[0])
  {
    if IsDateTime(p) { assert p[0] == p[..10][0]; }
  }

  /** The only space inside a time point is the one between date and time. */
  lemma PointSpace(p: string, j: nat)
    requires IsTimePoint(p) && j < |p| && p[j] == ' '
    ensures IsDateTime(p) && j == 10 && IsDigit(p[j + 1])
  {
    if IsDateTime(p) {
      assert forall i :: 0 <= i < 10 ==> p[..10][i] == p[i];
      assert forall i :: 11 <= i < 16 ==> p[11..][i - 11] == p[i];
    }
  }

  /** The start point of a range, by its length. */
  function RangeStart(u: string): nat
  {
    if IsRangeAt(u, 5) then 5 else if IsRangeAt(u, 10) then 10 else 16
  }

  lemma TimeInfoStartsWithDigit(u: string)
    requires IsTimeInfo(u)
    ensures IsDigit(u[0])
  {
    if IsSingleTimeInfo(u) {
      PointStartsWithDigit(u[..|u| - 1]);
    } else {
      var n := RangeStart(u);
      assert IsRangeAt(u, n);
      PointStartsWithDigit(u[..n]);
    }
  }

  /**
    A space inside a time information, other than the last character, is
    followed by a digit or by the dash of a range, and a space between two
    digits is the one of a date and time.
  */
  lemma AfterSpace(u: string, j: nat)
    requires IsTimeInfo(u) && j < |u| && u[j] == ' '
    ensures j + 1 < |u| ==> IsDigit(u[j + 1]) || u[j + 1] == '-'
    ensures j + 1 < |u| && u[j + 1] == '-' ==> j + 3 < |u| && u[j + 2] == ' ' && IsDigit(u[j + 3])
    ensures 0 < j && j + 1 < |u| && IsDigit(u[j - 1]) && IsDigit(u[j + 1]) ==> j + 6 < |u| && u[j + 6] == ' '
  {
    if j + 1 < |u| {
      if IsSingleTimeInfo(u) {
        var p := u[..|u| - 1];
        assert p[j] == u[j];
        PointSpace(p, j);
        assert u[j + 1] == p[j + 1];
      } else {
        var n := RangeStart(u);
        assert IsRangeAt(u, n);
        var p, q := u[..n], u[n + 3..|u| - 1];
        assert forall i :: 0 <= i < n ==> p[i] == u[i];
        assert forall i :: n + 3 <= i < |u| - 1 ==> q[i - n - 3] == u[i];
        assert u[n] == ' ' && u[n + 1] == '-' && u[n + 2] == ' ' by {
          assert u[n..n + 3] == " - ";
          assert u[n..n + 3][0] == u[n] && u[n..n + 3][1] == u[n + 1] && u[n..n + 3][2] == u[n + 2];
        }
        PointStartsWithDigit(q);
        if j < n {
          PointSpace(p, j);
        } else if n + 2 < j {
          PointSpace(q, j - n - 3);
        }
      }
    }
  }

  /** A time information of length n that the next characters of `s` cannot continue. */
  predicate CannotExtend(s: string, n: nat) {
    n == |s| ||
    (n < |s| && !IsDigit(s[n]) && s[n] != '-') ||
    (n < |s| && s[n] == '-' && (n + 2 >= |s| || s[n + 1] != ' ' || !IsDigit(s[n + 2]))) ||
    (2 <= n && n + 5 < |s| && IsDigit(s[n]) && IsDigit(s[n - 2]) && s[n + 5] != ' ')
  }

  /** How the longest time information of a line is found without scanning every prefix. */
  lemma TimeInfoLengthIs(s: string, n: nat)
    requires (n == 0 && (s == [] || !IsDigit(s[0]))) || (0 < n && TimeInfoPrefix(s, n) && CannotExtend(s, n))
    ensures TimeInfoLength(s) == n
  {
    var l := TimeInfoLength(s);
    if n == 0 {
      if l > 0 {
        TimeInfoStartsWithDigit(s[..l]);
        assert false;
      }
    } else {
      assert l >= n;
      var u := s[..l];
      assert forall i :: 0 <= i < l ==> u[i] == s[i];
      assert s[..n][n - 1] == s[n - 1];
      AfterSpace(u, n - 1);
    }
  }

  /** Whether `rest` can continue a time information `t` that ends with a space. */
  predicate CannotContinue(t: string, rest: string) {
    rest == [] ||
    (!IsDigit(rest[0]) && rest[0] != '-') ||
    (rest[0] == '-' && (|rest| < 3 || rest[1] != ' ' || !IsDigit(rest[2]))) ||
    (IsDigit(rest[0]) && 2 <= |t| && IsDigit(t[|t| - 2]) && 5 < |rest| && rest[5] != ' ')
  }

  lemma TimeInfoOfJoin(t: string, rest: string)
    requires IsTimeInfo(t) && CannotContinue(t, rest)
    ensures TimeInfoLength(t + rest) == |t|
  {
    var s := t + rest;
    assert s[..|t|] == t;
    assert forall i :: 0 <= i < |rest| ==> s[|t| + i] == rest[i];
    assert forall i :: 0 <= i < |t| ==> s[i] == t[i];
    TimeInfoLengthIs(s, |t|);
  }

  lemma DateTimeIsPoint(d: string, tm: string)
    requires IsDate(d) && IsTime(tm)
    ensures IsDateTime(d + " " + tm)
  {
    var p := d + " " + tm;
    assert p[..10] == d;
    assert p[11..] == tm;
  }

  lemma SingleIsTimeInfo(p: string)
    requires IsTimePoint(p)
    ensures IsSingleTimeInfo(p + " ")
  {
    assert (p + " ")[..|p|] == p;
  }

  lemma RangeIsTimeInfo(p: string, q: string)
    requires IsTimePoint(p) && IsTimePoint(q)
    ensures IsRangeTimeInfo(p + " - " + q + " ")
  {
    var t := p + " - " + q + " ";
    assert t[..|p|] == p;
    assert t[|p|..|p| + 3] == " - ";
    assert t[|p| + 3..|t| - 1] == q;
    assert IsRangeAt(t, |p|);
  }

  // ---------------------------------------------------------------------
  // Activity, category, tags and description.

  /** Characters that end a run of activity or category text. */
  const Markers: set<char> := {'@', '#', ',', ':'}

  predicate IsPlain(t: string) { forall i :: 0 <= i < |t| ==> t[i] !in Markers }

  predicate IsActivity(a: string) { a != [] && IsPlain(a) }

  /** `@name` with a non-empty name. */
  predicate IsCategory(c: string) { 2 <= |c| && c[0] == '@' && IsPlain(c[1..]) }

  /** ` #...` up to, and not including, the next comma. */
  predicate IsTags(t: string) {
    2 <= |t| && t[0] == ' ' && t[1] == '#' && forall i :: 0 <= i < |t| ==> t[i] != ','
  }

  /** `,...` to the end of the line, later commas included. */
  predicate IsDescription(d: string) { 1 <= |d| && d[0] == ',' }

  predicate TailWellFormed(f: Fields) {
    (f.tags.Some? ==> IsTags(f.tags.value)) &&
    (f.description.Some? ==> IsDescription(f.description.value))
  }

  predicate CategoryWellFormed(f: Fields) {
    (f.category.Some? ==> IsCategory(f.category.value)) && TailWellFormed(f)
  }

  predicate BodyWellFormed(f: Fields) {
    (f.activity.Some? ==> IsActivity(f.activity.value)) && CategoryWellFormed(f)
  }

  predicate WellFormed(f: Fields) {
    (f.timeinfo.Some? ==> IsTimeInfo(f.timeinfo.value)) && BodyWellFormed(f)
  }

  /**
    `f` decomposes `s`: its well-formed segments join back to `s`, and its
    time information is the longest one `s` starts with.
  */
  predicate IsDecomposition(s: string, f: Fields) {
    WellFormed(f) && Joined(f) == s &&
    forall m :: |Text(f.timeinfo)| < m <= |s| ==> !TimeInfoPrefix(s, m)
  }

  /** Index of the first character of `s` in `stops`, or |s| when there is none. */
  function FirstIn(s: string, stops: set<char>): (k: nat)
    ensures k <= |s|
    ensures forall i :: 0 <= i < k ==> s[i] !in stops
    ensures k < |s| ==> s[k] in stops
  {
    if s == [] || s[0] in stops then 0 else 1 + FirstIn(s[1..], stops)
  }

  /** The first stop is the one every earlier character is not. */
  lemma FirstInIs(s: string, stops: set<char>, m: nat)
    requires m <= |s| && (forall i :: 0 <= i < m ==> s[i] !in stops)
    requires m < |s| ==> s[m] in stops
    ensures FirstIn(s, stops) == m
  {
  }

  /**
    Where a run of activity or category text starting at `s[0]` ends: at the
    first marker, except that the space of a following ` #` opens the tags.
  */
  function PlainEnd(s: string): (k: nat)
    ensures k <= |s| && IsPlain(s[..k])
  {
    var m := FirstIn(s, Markers);
    if 0 < m < |s| && s[m] == '#' && s[m - 1] == ' ' then m - 1 else m
  }

  /** Tags and description: what follows the activity and category. */
  function ParseTail(s: string): (r: Option<Fields>)
    ensures r.Some? ==> r.value.timeinfo == None && r.value.activity == None && r.value.category == None
    ensures r.Some? ==> TailWellFormed(r.value) && TailText(r.value) == s
  {
    if s == [] then Some(NoFields)
    else if s[0] == ',' then Some(NoFields.(description := Some(s)))
    else if 2 <= |s| && s[0] == ' ' && s[1] == '#' then
      var k := FirstIn(s, {','});
      Some(NoFields.(tags := Some(s[..k]), description := if k == |s| then None else Some(s[k..])))
    else None
  }

  /** An optional `@category` directly followed by the tail. */
  function ParseCategory(s: string): (r: Option<Fields>)
    ensures r.Some? ==> r.value.timeinfo == None && r.value.activity == None
    ensures r.Some? ==> CategoryWellFormed(r.value) && CategoryText(r.value) == s
  {
    if s != [] && s[0] == '@' then
      var k := 1 + PlainEnd(s[1..]);
      assert s[1..][..k - 1] == s[1..k];
      if k == 1 then None
      else match ParseTail(s[k..])
        case None => None
        case Some(f) => Some(f.(category := Some(s[..k])))
    else ParseTail(s)
  }

  /** An optional activity followed by the category and the tail. */
  function ParseBody(s: string): (r: Option<Fields>)
    ensures r.Some? ==> r.value.timeinfo == None
    ensures r.Some? ==> BodyWellFormed(r.value) && BodyText(r.value) == s
  {
    var k := PlainEnd(s);
    match ParseCategory(s[k..])
    case None => None
    case Some(f) =>
      ActivityJoins(s, k, f);
      Some(WithActivity(s, k, f))
  }

  /** The category and tail `f` of `s[k..]` with `s[..k]` as its activity. */
  function WithActivity(s: string, k: nat, f: Fields): Fields
    requires k <= |s|
  {
    f.(activity := if k == 0 then None else Some(s[..k]))
  }

  lemma ActivityJoins(s: string, k: nat, f: Fields)
    requires k <= |s| && IsPlain(s[..k])
    requires CategoryWellFormed(f) && CategoryText(f) == s[k..]
    ensures BodyWellFormed(WithActivity(s, k, f)) && BodyText(WithActivity(s, k, f)) == s
  {
    var g := WithActivity(s, k, f);
    assert CategoryText(g) == CategoryText(f);
    assert CategoryWellFormed(g) == CategoryWellFormed(f);
    assert s[..k] + s[k..] == s;
  }

  /** `decompose_raw_fact_string`: every segment of `s`, or None. */
  function Decompose(s: string): (r: Option<Fields>)
    ensures r.Some? ==> IsDecomposition(s, r.value)
  {
    var n := TimeInfoLength(s);
    match ParseBody(s[n..])
    case None => None
    case Some(f) =>
      JoinTimeInfo(s, n, f);
      Some(WithTimeInfo(s, n, f))
  }

  /** The body `f` with the first n characters of `s` as its time information. */
  function WithTimeInfo(s: string, n: nat, f: Fields): Fields
    requires n <= |s|
  {
    f.(timeinfo := if n == 0 then None else Some(s[..n]))
  }

  lemma JoinTimeInfo(s: string, n: nat, f: Fields)
    requires n <= |s| && (n > 0 ==> TimeInfoPrefix(s, n))
    requires forall k :: n < k <= |s| ==> !TimeInfoPrefix(s, k)
    requires f.timeinfo == None && BodyWellFormed(f) && BodyText(f) == s[n..]
    ensures IsDecomposition(s, WithTimeInfo(s, n, f))
  {
    var g := WithTimeInfo(s, n, f);
    assert Text(g.timeinfo) == s[..n];
    assert BodyText(g) == BodyText(f);
    assert Joined(g) == s;
  }

  // ---------------------------------------------------------------------
  // Completeness: the scanner finds every decomposition there is.

  /** A run of plain text followed by a category, tags, a description or nothing ends where that text ends. */
  lemma PlainEndOfJoin(a: string, rest: string)
    requires IsPlain(a)
    requires rest == [] || rest[0] == '@' || rest[0] == ',' || (2 <= |rest| && rest[0] == ' ' && rest[1] == '#')
    ensures PlainEnd(a + rest) == |a|
  {
    var s := a + rest;
    var m := FirstIn(s, Markers);
    var expected := if rest != [] && rest[0] == ' ' then |a| + 1 else |a|;
    assert forall i :: 0 <= i < expected ==> s[i] !in Markers by {
      forall i | 0 <= i < expected ensures s[i] !in Markers {
        if i < |a| { assert s[i] == a[i]; } else { assert s[i] == rest[0]; }
      }
    }
    assert expected < |s| ==> s[expected] in Markers;
    assert m == expected;
  }

  lemma {:induction false} ParseTailComplete(s: string, f: Fields)
    requires f.timeinfo == None && f.activity == None && f.category == None
    requires TailWellFormed(f) && TailText(f) == s
    ensures ParseTail(s) == Some(f)
  {
    if f.tags.Some? {
      var t := f.tags.value;
      var k := FirstIn(s, {','});
      assert s[..|t|] == t;
      assert s[0] == t[0] && s[1] == t[1];
      if f.description.Some? {
        assert s[|t|] == f.description.value[0];
        assert forall i :: 0 <= i < |t| ==> s[i] == t[i];
        assert k == |t|;
        assert s[k..] == f.description.value;
      } else {
        assert s == t;
        assert k == |s|;
      }
    } else if f.description.Some? {
      assert s == f.description.value;
    }
  }

  lemma {:induction false} ParseCategoryComplete(s: string, f: Fields)
    requires f.timeinfo == None && f.activity == None
    requires CategoryWellFormed(f) && CategoryText(f) == s
    ensures ParseCategory(s) == Some(f)
  {
    var tail := TailText(f);
    var g := f.(category := None);
    assert TailText(g) == tail;
    if f.category.Some? {
      var c := f.category.value;
      var name := c[1..];
      assert s == c + tail;
      assert s[1..] == name + tail;
      if tail != [] {
        if f.tags.Some? {
          assert tail[0] == f.tags.value[0] && tail[1] == f.tags.value[1];
        } else {
          assert tail[0] == f.description.value[0];
        }
      }
      PlainEndOfJoin(name, tail);
      assert s[|c|..] == tail;
      ParseTailComplete(tail, g);
    } else {
      assert s == tail;
      if s != [] {
        if f.tags.Some? {
          assert s[0] == f.tags.value[0];
        } else {
          assert s[0] == f.description.value[0];
        }
      }
      ParseTailComplete(s, g);
    }
  }

  lemma {:induction false} ParseBodyComplete(s: string, f: Fields)
    requires f.timeinfo == None
    requires BodyWellFormed(f) && BodyText(f) == s
    ensures ParseBody(s) == Some(f)
  {
    var a := Text(f.activity);
    var rest := CategoryText(f);
    var g := f.(activity := None);
    assert CategoryText(g) == rest;
    assert s == a + rest;
    if rest != [] {
      if f.category.Some? {
        assert rest[0] == f.category.value[0];
      } else if f.tags.Some? {
        assert rest[0] == f.tags.value[0] && rest[1] == f.tags.value[1];
      } else {
        assert rest[0] == f.description.value[0];
      }
    }
    assert IsPlain(a);
    PlainEndOfJoin(a, rest);
    assert s[|a|..] == rest;
    assert s[..|a|] == a;
    ParseCategoryComplete(rest, g);
  }

  /** The time information of any decomposition is the one the scanner picks. */
  lemma TimeInfoLengthOfDecomposition(s: string, f: Fields)
    requires IsDecomposition(s, f)
    ensures TimeInfoLength(s) == |Text(f.timeinfo)|
    ensures s[..|Text(f.timeinfo)|] == Text(f.timeinfo)
  {
    var t := Text(f.timeinfo);
    assert s == t + BodyText(f);
    assert s[..|t|] == t;
    var n := TimeInfoLength(s);
    if f.timeinfo.Some? {
      assert TimeInfoPrefix(s, |t|);
    }
    assert n == |t|;
  }

  /** The scanner's answer is exactly the decomposition of the line. */
  lemma {:induction false} DecomposeCharacterized(s: string, f: Fields)
    ensures Decompose(s) == Some(f) <==> IsDecomposition(s, f)
  {
    if IsDecomposition(s, f) {
      TimeInfoLengthOfDecomposition(s, f);
      var t := Text(f.timeinfo);
      var g := f.(timeinfo := None);
      assert BodyText(g) == BodyText(f);
      assert s[|t|..] == BodyText(f);
      ParseBodyComplete(s[|t|..], g);
      assert f.timeinfo.None? <==> |t| == 0;
    }
  }

  /** A line has at most one decomposition, so a failed parse is never a partial one. */
  lemma DecompositionUnique(s: string, f: Fields, g: Fields)
    requires IsDecomposition(s, f) && IsDecomposition(s, g)
    ensures f == g
  {
    DecomposeCharacterized(s, f);
    DecomposeCharacterized(s, g);
  }

  /** None exactly when no segmentation of the line satisfies the grammar. */
  lemma DecomposeNoneIff(s: string)
    ensures Decompose(s) == None <==> forall f :: !IsDecomposition(s, f)
  {
    if Decompose(s).Some? {
      DecomposeCharacterized(s, Decompose(s).value);
    } else {
      forall f ensures !IsDecomposition(s, f) {
        DecomposeCharacterized(s, f);
      }
    }
  }

  // ---------------------------------------------------------------------
  // Failure modes of the body.

  /**
    After the time information `t`, a `#` that is not preceded by a space,
    or a `:`, ahead of every other marker makes the whole line fail.
  */
  lemma GluedMarkerFails(t: string, rest: string, m: nat)
    requires TimeInfoLength(t + rest) == |t|
    requires m < |rest| && IsPlain(rest[..m])
    requires rest[m] == ':' || (rest[m] == '#' && (m == 0 || rest[m - 1] != ' '))
    ensures Decompose(t + rest) == None
  {
    assert (t + rest)[|t|..] == rest;
    assert forall i :: 0 <= i < m ==> rest[..m][i] == rest[i];
    FirstInIs(rest, Markers, m);
    assert PlainEnd(rest) == m;
    var u := rest[m..];
    assert u[0] == rest[m];
    assert ParseTail(u) == None;
    assert ParseCategory(u) == None;
    assert ParseBody(rest) == None;
  }
}
