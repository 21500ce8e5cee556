/**
 * The three pieces of Python's `str` that the sink-listing parser relies on:
 * `str.splitlines()`, `str.split()` with no separator, and the substring
 * test `x in s`. Characters are Unicode scalar values, as in Python 3.
 */
module PyStr {

  /** `c.isspace()`: the characters `str.split()` treats as separators. */
  predicate IsSpace(c: char) {
    var n := c as int;
    n == 0x20 || (0x09 <= n <= 0x0D) || (0x1C <= n <= 0x1F) || n == 0x85 || n == 0xA0
    || n == 0x1680 || (0x2000 <= n <= 0x200A) || n == 0x2028 || n == 0x2029
    || n == 0x202F || n == 0x205F || n == 0x3000
  }

  /** The line boundaries of `str.splitlines()` (`\r\n` is handled as one boundary). */
  predicate IsLineBreak(c: char) {
    var n := c as int;
    (0x0A <= n <= 0x0D) || (0x1C <= n <= 0x1E) || n == 0x85 || n == 0x2028 || n == 0x2029
  }

  ghost predicate NoBreak(s: string) {
    forall i :: 0 <= i < |s| ==> !IsLineBreak(s[i])
  }

  /** Lines as `splitlines` produces them: none holds a line boundary. */
  ghost predicate AllNoBreak(lines: seq<string>) {
    forall k :: 0 <= k < |lines| ==> NoBreak(lines[k])
  }

  lemma {:induction false} AllNoBreakConcat(a: seq<string>, b: seq<string>)
    requires AllNoBreak(a) && AllNoBreak(b)
    ensures AllNoBreak(a + b)
  {
  }

  /** A field produced by `str.split()`: non-empty and free of whitespace. */
  ghost predicate IsField(w: string) {
    w != [] && forall i :: 0 <= i < |w| ==> !IsSpace(w[i])
  }

  // ---------------------------------------------------------------------------
  // str.splitlines()

  /** The first line boundary at or after `from`, or `|s|` when there is none. */
  function BreakIndex(s: string, from: nat): (k: nat)
    requires from <= |s|
    ensures from <= k <= |s|
    ensures forall i :: from <= i < k ==> !IsLineBreak(s[i])
    ensures k < |s| ==> IsLineBreak(s[k])
    decreases |s| - from
  {
    if from == |s| || IsLineBreak(s[from]) then from else BreakIndex(s, from + 1)
  }

  /**
   * `s.splitlines()`: the text between boundaries; a final boundary does not
   * start an empty last line, and the empty text has no lines.
   */
  function SplitLines(s: string): (lines: seq<string>)
    ensures AllNoBreak(lines)
    ensures lines == [] <==> s == []
    decreases |s|
  {
    if s == [] then []
    else
      var k := BreakIndex(s, 0);
      if k == |s| then [s]
      else
        var next := if s[k] == '\r' && k + 1 < |s| && s[k + 1] == '\n' then k + 2 else k + 1;
        [s[..k]] + SplitLines(s[next..])
  }

  /** Text made of the given lines, each terminated by `\n` (as `pactl` prints them). */
  function JoinLines(lines: seq<string>): string {
    if lines == [] then [] else lines[0] + "\n" + JoinLines(lines[1..])
  }

  /** Lines that hold no boundary come back unchanged from `splitlines`. */
  lemma {:induction false} SplitJoinLines(lines: seq<string>)
    requires AllNoBreak(lines)
    ensures SplitLines(JoinLines(lines)) == lines
  {
    if lines != [] {
      var l, rest := lines[0], lines[1..];
      var s := JoinLines(lines);
      assert s == l + "\n" + JoinLines(rest);
      assert s[|l|] == '\n';
      assert forall i :: 0 <= i < |l| ==> s[i] == l[i];
      var k := BreakIndex(s, 0);
      assert k == |l|;
      assert s[..k] == l;
      assert s[k + 1..] == JoinLines(rest);
      assert forall j :: 0 <= j < |rest| ==> rest[j] == lines[j + 1];
      SplitJoinLines(rest);
    }
  }

  // ---------------------------------------------------------------------------
  // str.split()

  /** `s` with its leading whitespace removed. */
  function SkipSpaces(s: string): (t: string)
    ensures |t| <= |s|
    ensures forall i :: 0 <= i < |s| - |t| ==> IsSpace(s[i])
    ensures t != [] ==> !IsSpace(t[0])
    decreases |s|
  {
    if s != [] && IsSpace(s[0]) then SkipSpaces(s[1..]) else s
  }

  /** The first whitespace character at or after `from`, or `|s|` when there is none. */
  function SpaceIndex(s: string, from: nat): (k: nat)
    requires from <= |s|
    ensures from <= k <= |s|
    ensures forall i :: from <= i < k ==> !IsSpace(s[i])
    ensures k < |s| ==> IsSpace(s[k])
    decreases |s| - from
  {
    if from == |s| || IsSpace(s[from]) then from else SpaceIndex(s, from + 1)
  }

  /**
   * `s.split()`: the maximal runs of non-whitespace characters, in order;
   * leading, trailing and repeated whitespace produce no empty fields.
   */
  function Split(s: string): (fields: seq<string>)
    ensures forall k :: 0 <= k < |fields| ==> IsField(fields[k])
    decreases |s|
  {
    var t := SkipSpaces(s);
    if t == [] then []
    else
      var k := SpaceIndex(t, 0);
      assert k > 0;
      var head, tail := t[..k], Split(t[k..]);
      assert IsField(head) by {
        assert forall i :: 0 <= i < k ==> head[i] == t[i];
      }
      [head] + tail
  }

  /** A separator between two columns: a non-empty run of whitespace. */
  ghost predicate IsGap(sep: string) {
    sep != [] && forall i :: 0 <= i < |sep| ==> IsSpace(sep[i])
  }

  /** Fields with `seps[k]` between `ws[k]` and `ws[k + 1]`. */
  function JoinFields(ws: seq<string>, seps: seq<string>): string
    requires |seps| == |ws| - 1 || ws == [] == seps
  {
    if |ws| <= 1 then (if ws == [] then [] else ws[0])
    else ws[0] + seps[0] + JoinFields(ws[1..], seps[1..])
  }

  /** Whitespace in front of a text changes nothing about its fields. */
  lemma {:induction false} SplitIgnoresLeadingSpace(w: string, s: string)
    requires forall i :: 0 <= i < |w| ==> IsSpace(w[i])
    ensures Split(w + s) == Split(s)
  {
    SkipSpacesLeading(w, s);
  }

  lemma {:induction false} SkipSpacesLeading(w: string, s: string)
    requires forall i :: 0 <= i < |w| ==> IsSpace(w[i])
    ensures SkipSpaces(w + s) == SkipSpaces(s)
    decreases |w|
  {
    if w != [] {
      assert (w + s)[0] == w[0];
      assert (w + s)[1..] == w[1..] + s;
      SkipSpacesLeading(w[1..], s);
    } else {
      assert w + s == s;
    }
  }

  /** A field followed by any run of whitespace is the first field of the text. */
  lemma {:induction false} SplitFieldThenGap(w: string, sep: string, rest: string)
    requires IsField(w) && IsGap(sep)
    ensures Split(w + sep + rest) == [w] + Split(rest)
  {
    var s := w + sep + rest;
    assert s[0] == w[0];
    assert SkipSpaces(s) == s;
    assert forall i :: 0 <= i < |w| ==> s[i] == w[i];
    assert s[|w|] == sep[0];
    var k := SpaceIndex(s, 0);
    assert k == |w|;
    assert s[..k] == w;
    assert s[k..] == sep + rest;
    SplitIgnoresLeadingSpace(sep, rest);
  }

  /** A text that is a single field splits into just that field. */
  lemma {:induction false} SplitSingleField(w: string)
    requires IsField(w)
    ensures Split(w) == [w]
  {
    assert SkipSpaces(w) == w;
    var k := SpaceIndex(w, 0);
    assert k == |w|;
    assert w[..k] == w && w[k..] == [];
  }

  /** Fields joined by any whitespace separators come back unchanged from `split`. */
  lemma {:induction false} SplitJoinFields(ws: seq<string>, seps: seq<string>)
    requires |seps| == |ws| - 1 || ws == [] == seps
    requires forall k :: 0 <= k < |ws| ==> IsField(ws[k])
    requires forall k :: 0 <= k < |seps| ==> IsGap(seps[k])
    ensures Split(JoinFields(ws, seps)) == ws
  {
    if |ws| == 1 {
      SplitSingleField(ws[0]);
    } else if |ws| > 1 {
      assert forall k :: 0 <= k < |ws| - 1 ==> ws[1..][k] == ws[k + 1];
      assert forall k :: 0 <= k < |seps| - 1 ==> seps[1..][k] == seps[k + 1];
      SplitJoinFields(ws[1..], seps[1..]);
      SplitFieldThenGap(ws[0], seps[0], JoinFields(ws[1..], seps[1..]));
      assert [ws[0]] + ws[1..] == ws;
    }
  }

  /** A field holds no line boundary, since every boundary is whitespace. */
  lemma {:induction false} FieldHasNoBreak(w: string)
    requires IsField(w)
    ensures NoBreak(w)
  {
    forall i | 0 <= i < |w| ensures !IsLineBreak(w[i]) {
      assert !IsSpace(w[i]);
    }
  }

  /** Fields joined by separators without line boundaries hold no line boundary. */
  lemma {:induction false} JoinFieldsNoBreak(ws: seq<string>, seps: seq<string>)
    requires |seps| == |ws| - 1 || ws == [] == seps
    requires forall k :: 0 <= k < |ws| ==> IsField(ws[k])
    requires forall k :: 0 <= k < |seps| ==> NoBreak(seps[k])
    ensures NoBreak(JoinFields(ws, seps))
  {
    if |ws| == 1 {
      FieldHasNoBreak(ws[0]);
    } else if |ws| > 1 {
      assert forall k :: 0 <= k < |ws| - 1 ==> ws[1..][k] == ws[k + 1];
      assert forall k :: 0 <= k < |seps| - 1 ==> seps[1..][k] == seps[k + 1];
      JoinFieldsNoBreak(ws[1..], seps[1..]);
      FieldHasNoBreak(ws[0]);
      var w, sep, rest := ws[0], seps[0], JoinFields(ws[1..], seps[1..]);
      var s := w + sep + rest;
      forall i | 0 <= i < |s| ensures !IsLineBreak(s[i]) {
        if i < |w| { assert s[i] == w[i]; }
        else if i < |w| + |sep| { assert s[i] == sep[i - |w|]; }
        else { assert s[i] == rest[i - |w| - |sep|]; }
      }
    }
  }

  // ---------------------------------------------------------------------------
  // The substring test `p in s`

  /** `p` occurs in `s` starting at index `i`. */
  ghost predicate OccursAt(p: string, s: string, i: nat) {
    i + |p| <= |s| && s[i..i + |p|] == p
  }

  /** `p in s`: `p` is a prefix of `s` or occurs in its tail. */
  function Contains(s: string, p: string): bool
    decreases |s|
  {
    if |p| <= |s| && s[..|p|] == p then true
    else if s == [] then false
    else Contains(s[1..], p)
  }

  /** `p in s` holds exactly when `p` occurs at some index of `s`; the empty string occurs in every string. */
  lemma {:induction false} ContainsIffOccurs(s: string, p: string)
    ensures Contains(s, p) <==> exists i: nat :: OccursAt(p, s, i)
    decreases |s|
  {
    if |p| <= |s| && s[..|p|] == p {
      assert OccursAt(p, s, 0);
    } else if s == [] {
    } else {
      ContainsIffOccurs(s[1..], p);
      forall i: nat | OccursAt(p, s[1..], i) ensures OccursAt(p, s, i + 1) {
        assert s[i + 1..i + 1 + |p|] == s[1..][i..i + |p|];
      }
      forall i: nat | OccursAt(p, s, i) ensures i > 0 && OccursAt(p, s[1..], i - 1) {
        assert s[1..][i - 1..i - 1 + |p|] == s[i..i + |p|];
      }
    }
  }
}
