/** The text form of a pattern: the step renderer `buildpattern` and the
    line `Format` prints for each track. */
module Render {
  import opened Bytes
  import opened Drum

  const BAR: byte := 0x7c    // '|'
  const HIT: byte := 0x78    // 'x'
  const REST: byte := 0x2d   // '-'
  const LPAREN: byte := 0x28 // '('
  const RPAREN: byte := 0x29 // ')'
  const SPACE: byte := 0x20
  const TAB: byte := 0x09
  const NEWLINE: byte := 0x0a
  const ZERO_DIGIT: byte := 0x30 // '0'

  /** The mark for one step: 'x' when the byte is 1, '-' for any other. */
  function Mark(b: byte): (m: byte)
    ensures m == HIT <==> b == 1
    ensures m == HIT || m == REST
  {
    if b == 1 then HIT else REST
  }

  /** The marks of a run of steps, one per step. */
  function Marks(s: seq<byte>): (m: seq<byte>)
    ensures |m| == |s|
    ensures forall i :: 0 <= i < |s| ==> m[i] == Mark(s[i])
  {
    seq(|s|, i requires 0 <= i < |s| => Mark(s[i]))
  }

  /** The steps in groups of four, each full group followed by a bar; a
      last group of fewer than four steps has no bar after it. */
  function Groups(s: seq<byte>): seq<byte>
    decreases |s|
  {
    if |s| < 4 then Marks(s) else Marks(s[..4]) + [BAR] + Groups(s[4..])
  }

  /** The rendered step pattern: a bar, then the steps in bar-closed groups
      of four. */
  function Rendered(s: seq<byte>): seq<byte>
  {
    [BAR] + Groups(s)
  }

  /** Position of the mark of step `i` in the rendered pattern: after the
      leading bar, the `i` marks before it and the `i / 4` bars closing the
      groups before its own. */
  function Slot(i: nat): nat
  {
    1 + i + i / 4
  }

  /** Grouping a run whose length is a multiple of four, then another run,
      is grouping each and joining them. */
  lemma {:induction false} GroupsAppend(a: seq<byte>, b: seq<byte>)
    requires |a| % 4 == 0
    ensures Groups(a + b) == Groups(a) + Groups(b)
    decreases |a|
  {
    if a == [] {
      assert a + b == b;
    } else {
      assert (a + b)[..4] == a[..4];
      assert (a + b)[4..] == a[4..] + b;
      GroupsAppend(a[4..], b);
    }
  }

  /** Grouping adds one bar per full group of four. */
  lemma {:induction false} GroupsLength(s: seq<byte>)
    ensures |Groups(s)| == |s| + |s| / 4
    decreases |s|
  {
    if |s| >= 4 {
      GroupsLength(s[4..]);
    }
  }

  /** Where the mark of step `i` sits in `Groups(s)`, and the bar that
      follows it when `i` closes a group. */
  lemma {:induction false} GroupsAt(s: seq<byte>, i: nat)
    requires i < |s|
    ensures Slot(i) <= |Groups(s)|
    ensures Groups(s)[Slot(i) - 1] == Mark(s[i])
    ensures i % 4 == 3 ==> Slot(i) < |Groups(s)| && Groups(s)[Slot(i)] == BAR
    decreases i
  {
    GroupsLength(s);
    if i >= 4 {
      var tail := s[4..];
      var g := Groups(tail);
      var head := Marks(s[..4]) + [BAR];
      var j := Slot(i - 4);
      GroupsAt(tail, i - 4);
      assert Slot(i) == j + 5;
      assert Groups(s) == head + g;
      assert tail[i - 4] == s[i];
    } else {
      assert Slot(i) == i + 1;
    }
  }

  /** The rendered pattern of `n` steps has `1 + n + n / 4` bytes: a bar
      first, the mark of step `i` at `Slot(i)`, and a bar right after the
      mark of every step `i` with `i % 4 == 3`. */
  lemma RenderedLayout(s: seq<byte>)
    ensures |Rendered(s)| == 1 + |s| + |s| / 4
    ensures Rendered(s)[0] == BAR
    ensures forall i :: 0 <= i < |s| ==> Rendered(s)[Slot(i)] == Mark(s[i])
    ensures forall i :: 0 <= i < |s| && i % 4 == 3 ==> Rendered(s)[Slot(i) + 1] == BAR
  {
    GroupsLength(s);
    forall i | 0 <= i < |s|
      ensures Rendered(s)[Slot(i)] == Mark(s[i])
      ensures i % 4 == 3 ==> Rendered(s)[Slot(i) + 1] == BAR
    {
      GroupsAt(s, i);
    }
  }

  /** Renders steps as `buildpattern` does: a leading bar, then for each
      step its mark, and a bar after every step whose index is 3 modulo 4. */
  method BuildPattern(pattern: seq<byte>) returns (n: seq<byte>)
    ensures n == Rendered(pattern)
    ensures |n| == 1 + |pattern| + |pattern| / 4
    ensures n[0] == BAR
    ensures forall i :: 0 <= i < |pattern| ==> n[Slot(i)] == Mark(pattern[i])
    ensures forall i :: 0 <= i < |pattern| && i % 4 == 3 ==> n[Slot(i) + 1] == BAR
  {
    n := [BAR];
    assert pattern[..0] == [];
    for key := 0 to |pattern|
      invariant n == Rendered(pattern[..key])
    {
      RenderedExtend(pattern, key);
      if pattern[key] == 1 {
        n := n + [HIT];
      } else {
        n := n + [REST];
      }
      if key % 4 == 3 {
        n := n + [BAR];
      }
    }
    assert pattern[..|pattern|] == pattern;
    RenderedLayout(pattern);
  }

  /** Rendering one more step appends its mark, and a bar when its index is
      3 modulo 4. */
  lemma RenderedExtend(s: seq<byte>, k: nat)
    requires k < |s|
    ensures Rendered(s[..k + 1]) == Rendered(s[..k]) + [Mark(s[k])] + (if k % 4 == 3 then [BAR] else [])
  {
    GroupsExtendOne(s, k);
  }

  /** Grouping one more step appends its mark, and a bar when it completes a
      group. */
  lemma GroupsExtendOne(s: seq<byte>, k: nat)
    requires k < |s|
    ensures Groups(s[..k + 1]) == Groups(s[..k]) + [Mark(s[k])] + (if k % 4 == 3 then [BAR] else [])
  {
    var done := k - k % 4;
    if k % 4 == 3 {
      GroupsClose(s, done);
    } else {
      GroupsInside(s, done, k);
    }
  }

  /** A step that does not complete its group only adds its mark. */
  lemma GroupsInside(s: seq<byte>, done: nat, k: nat)
    requires done % 4 == 0 && done <= k < done + 3 && k < |s|
    ensures Groups(s[..k + 1]) == Groups(s[..k]) + [Mark(s[k])]
  {
    GroupsPrefix(s, done, k);
    GroupsPrefix(s, done, k + 1);
    MarksExtend(s, done, k);
  }

  /** The step that completes a group adds its mark and a bar. */
  lemma GroupsClose(s: seq<byte>, done: nat)
    requires done % 4 == 0 && done + 4 <= |s|
    ensures Groups(s[..done + 4]) == Groups(s[..done + 3]) + [Mark(s[done + 3]), BAR]
  {
    GroupsPrefix(s, done, done + 3);
    MarksExtend(s, done, done + 3);
    GroupsExtend(s, done);
  }

  /** The steps before `k` group as the whole groups before `done` followed
      by the marks of the fewer than four steps from `done` to `k`. */
  lemma GroupsPrefix(s: seq<byte>, done: nat, k: nat)
    requires done % 4 == 0 && done <= k <= |s| && k - done < 4
    ensures Groups(s[..k]) == Groups(s[..done]) + Marks(s[done..k])
  {
    assert s[..k] == s[..done] + s[done..k];
    GroupsAppend(s[..done], s[done..k]);
  }

  /** Marking one more step of a run appends its mark. */
  lemma MarksExtend(s: seq<byte>, lo: nat, hi: nat)
    requires lo <= hi < |s|
    ensures Marks(s[lo..hi]) + [Mark(s[hi])] == Marks(s[lo..hi + 1])
  {
  }

  /** Grouping four more steps after whole groups appends their marks and a
      bar. */
  lemma GroupsExtend(s: seq<byte>, done: nat)
    requires done % 4 == 0 && done + 4 <= |s|
    ensures Groups(s[..done + 4]) == Groups(s[..done]) + Marks(s[done..done + 4]) + [BAR]
  {
    var group := s[done..done + 4];
    assert s[..done + 4] == s[..done] + group;
    GroupsAppend(s[..done], group);
    assert group[..4] == group && group[4..] == [];
  }

  /** A 16-step track renders to 21 bytes with bars exactly at positions 0,
      5, 10, 15 and 20 and the step marks, in order, between them. */
  lemma SixteenStepLayout(s: seq<byte>)
    requires |s| == TRACK_LEN
    ensures |Rendered(s)| == 21
    ensures forall p :: 0 <= p < 21 ==> (Rendered(s)[p] == BAR <==> p % 5 == 0)
    ensures forall p :: 0 <= p < 21 && p % 5 != 0 ==> Rendered(s)[p] == Mark(s[p - 1 - p / 5])
  {
    RenderedLayout(s);
    forall p | 0 <= p < 21
      ensures Rendered(s)[p] == BAR <==> p % 5 == 0
      ensures p % 5 != 0 ==> Rendered(s)[p] == Mark(s[p - 1 - p / 5])
    {
      if p % 5 == 0 {
        if p > 0 {
          var i := p - 1 - p / 5;
          assert Slot(i) + 1 == p;
        }
      } else {
        var i := p - 1 - p / 5;
        assert Slot(i) == p;
      }
    }
  }

  /** The ASCII decimal digits of `n`, most significant first, with no
      leading zero: the only number written with a leading `0` is 0 itself,
      as the single digit `0`. */
  function Decimal(n: nat): (d: seq<byte>)
    ensures 1 <= |d|
    ensures forall k :: 0 <= k < |d| ==> ZERO_DIGIT <= d[k] <= ZERO_DIGIT + 9
    ensures d[0] == ZERO_DIGIT <==> n == 0
    ensures |d| == 1 <==> n < 10
    decreases n
  {
    if n < 10 then [ZERO_DIGIT + n as byte]
    else Decimal(n / 10) + [ZERO_DIGIT + (n % 10) as byte]
  }

  /** The number a run of ASCII decimal digits spells. */
  function DigitsValue(d: seq<byte>): nat
    requires forall k :: 0 <= k < |d| ==> ZERO_DIGIT <= d[k] <= ZERO_DIGIT + 9
  {
    if d == [] then 0 else 10 * DigitsValue(d[..|d| - 1]) + (d[|d| - 1] - ZERO_DIGIT) as nat
  }

  /** The digits printed for a number spell that number. */
  lemma {:induction false} DecimalRoundTrip(n: nat)
    ensures DigitsValue(Decimal(n)) == n
    decreases n
  {
    if n >= 10 {
      DecimalRoundTrip(n / 10);
      var d := Decimal(n);
      assert d[..|d| - 1] == Decimal(n / 10);
    }
  }

  /** A run of digits with no leading zero (or the single digit `0`) is
      exactly the decimal form of the number it spells: the decimal form is
      the only canonical spelling. */
  lemma {:induction false} DecimalUnique(d: seq<byte>)
    requires 1 <= |d|
    requires forall k :: 0 <= k < |d| ==> ZERO_DIGIT <= d[k] <= ZERO_DIGIT + 9
    requires |d| == 1 || d[0] != ZERO_DIGIT
    ensures Decimal(DigitsValue(d)) == d
    decreases |d|
  {
    var n := DigitsValue(d);
    if |d| == 1 {
      assert d[..|d| - 1] == [];
      assert DigitsValue(d[..|d| - 1]) == 0;
      assert n == (d[0] - ZERO_DIGIT) as nat;
    } else {
      var p := d[..|d| - 1];
      var c := (d[|d| - 1] - ZERO_DIGIT) as nat;
      var v := DigitsValue(p);
      assert p[0] == d[0];
      DecimalUnique(p);
      assert v != 0;
      assert n == 10 * v + c && c < 10;
      assert n / 10 == v && n % 10 == c;
      assert Decimal(n) == p + [d[|d| - 1]];
      assert p + [d[|d| - 1]] == d;
    }
  }

  /** The line printed for one track: `(<id>) <name>`, a tab, the rendered
      steps and a newline. */
  function TrackLine(t: DrumPattern): (line: seq<byte>)
    ensures |line| == |Decimal(t.id as nat)| + |t.name| + |t.track| + |t.track| / 4 + 6
    ensures line[0] == LPAREN && line[|line| - 1] == NEWLINE
  {
    GroupsLength(t.track);
    [LPAREN] + Decimal(t.id as nat) + [RPAREN, SPACE] + t.name + [TAB] + Rendered(t.track) + [NEWLINE]
  }

  /** The longest run of ASCII decimal digits `s` starts with. */
  function LeadingDigits(s: seq<byte>): (d: seq<byte>)
    ensures |d| <= |s| && d == s[..|d|]
    ensures forall k :: 0 <= k < |d| ==> ZERO_DIGIT <= d[k] <= ZERO_DIGIT + 9
    ensures |d| < |s| ==> !(ZERO_DIGIT <= s[|d|] <= ZERO_DIGIT + 9)
  {
    if s != [] && ZERO_DIGIT <= s[0] <= ZERO_DIGIT + 9 then
      var d := [s[0]] + LeadingDigits(s[1..]);
      assert s == [s[0]] + s[1..];
      d
    else []
  }

  /** A track's line can be read back: after the opening parenthesis come
      the digits of the id, then ") ", the name, a tab, the rendered steps
      and a newline. */
  lemma TrackLineReadsBack(t: DrumPattern)
    ensures var line := TrackLine(t);
      var d := LeadingDigits(line[1..]);
      && line[0] == LPAREN
      && DigitsValue(d) == t.id as nat
      && d == Decimal(t.id as nat)
      && (|d| == 1 || d[0] != ZERO_DIGIT)
      && line[1 + |d|..] == [RPAREN, SPACE] + t.name + [TAB] + Rendered(t.track) + [NEWLINE]
  {
    var line := TrackLine(t);
    var dec := Decimal(t.id as nat);
    var rest := [RPAREN, SPACE] + t.name + [TAB] + Rendered(t.track) + [NEWLINE];
    assert line == [LPAREN] + dec + rest;
    assert line[1..] == dec + rest;
    LeadingDigitsOf(dec, rest);
    DecimalRoundTrip(t.id as nat);
    assert line[1 + |dec|..] == rest;
  }

  /** Reading the leading digits of a digit run followed by a non-digit
      gives back the run. */
  lemma {:induction false} LeadingDigitsOf(d: seq<byte>, rest: seq<byte>)
    requires forall k :: 0 <= k < |d| ==> ZERO_DIGIT <= d[k] <= ZERO_DIGIT + 9
    requires rest != [] && !(ZERO_DIGIT <= rest[0] <= ZERO_DIGIT + 9)
    ensures LeadingDigits(d + rest) == d
  {
    if d != [] {
      assert (d + rest)[1..] == d[1..] + rest;
      LeadingDigitsOf(d[1..], rest);
    } else {
      assert d + rest == rest;
    }
  }
}
