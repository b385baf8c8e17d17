/** The string primitives the selectors are built from: Python's
    `str.strip()` with no argument and `str.split(sep)` with an explicit
    one-character separator, with `Join` as the inverse of `Split`.
 */
module Text {

  /** The characters for which Python's `str.isspace()` holds; `strip()`
      removes exactly these from both ends. */
  predicate IsSpace(c: char) {
    var n := c as int;
    || 9 <= n <= 13
    || 28 <= n <= 32
    || n == 0x85 || n == 0xA0 || n == 0x1680
    || 0x2000 <= n <= 0x200A
    || n == 0x2028 || n == 0x2029 || n == 0x202F || n == 0x205F || n == 0x3000
  }

  /** Which whitespace a trim removes. `str.strip()` removes every `IsSpace`
      character. `int()` on text skips the ASCII whitespace `\t \n \v \f \r`
      and the space, and every non-ASCII `IsSpace` character, but not the
      ASCII separators U+001C to U+001F, which `str.isspace()` counts. */
  datatype Spaces = StrSpaces | IntSpaces

  predicate IsSpaceIn(c: char, sp: Spaces) {
    IsSpace(c) && (sp == IntSpaces ==> !(28 <= c as int <= 31))
  }

  predicate AllSpaceIn(s: string, sp: Spaces) {
    forall i :: 0 <= i < |s| ==> IsSpaceIn(s[i], sp)
  }

  /** All of `s` is whitespace for `str.strip()`. */
  predicate AllSpace(s: string) {
    AllSpaceIn(s, StrSpaces)
  }

  /** `s` without its leading whitespace. */
  function TrimStart(s: string, sp: Spaces): (r: string)
    ensures |r| <= |s| && r == s[|s| - |r|..]
    ensures AllSpaceIn(s[..|s| - |r|], sp)
    ensures |r| > 0 ==> !IsSpaceIn(r[0], sp)
    decreases |s|
  {
    if |s| > 0 && IsSpaceIn(s[0], sp) then
      var r := TrimStart(s[1..], sp);
      assert s[..|s| - |r|] == [s[0]] + s[1..][..|s| - 1 - |r|];
      r
    else
      s
  }

  /** `s` without its trailing whitespace. */
  function TrimEnd(s: string, sp: Spaces): (r: string)
    ensures |r| <= |s| && r == s[..|r|]
    ensures AllSpaceIn(s[|r|..], sp)
    ensures |r| > 0 ==> !IsSpaceIn(r[|r| - 1], sp)
    decreases |s|
  {
    if |s| > 0 && IsSpaceIn(s[|s| - 1], sp) then
      var r := TrimEnd(s[..|s| - 1], sp);
      assert s[|r|..] == s[..|s| - 1][|r|..] + [s[|s| - 1]];
      r
    else
      s
  }

  /** `s` without leading and trailing whitespace of the kind `sp`. */
  function Strip(s: string, sp: Spaces): (r: string)
    ensures |r| <= |s|
    ensures |r| > 0 ==> !IsSpaceIn(r[0], sp) && !IsSpaceIn(r[|r| - 1], sp)
  {
    TrimEnd(TrimStart(s, sp), sp)
  }

  /** Python's `s.strip()`. */
  function Trim(s: string): (r: string)
    ensures |r| <= |s|
    ensures |r| > 0 ==> !IsSpace(r[0]) && !IsSpace(r[|r| - 1])
  {
    Strip(s, StrSpaces)
  }

  /** `Strip(s, sp)` is the slice of `s` that leaves only whitespace on
      either side; with the end condition of `Strip` this fixes it uniquely. */
  lemma TrimFrames(s: string, sp: Spaces)
    ensures exists lead :: Frames(s, lead, Strip(s, sp), sp)
  {
    var t := TrimStart(s, sp);
    var r := TrimEnd(t, sp);
    var lead := |s| - |t|;
    assert t == s[lead..];
    assert r == t[..|r|];
    assert 0 <= lead <= |s| - |r|;
    assert s[lead..][..|r|] == s[lead..lead + |r|];
    assert r == s[lead..lead + |r|];
    assert AllSpaceIn(s[..lead], sp);
    assert s[lead + |r|..] == t[|r|..];
    assert AllSpaceIn(s[lead + |r|..], sp);
    assert Frames(s, lead, r, sp);
    assert r == Strip(s, sp);
  }

  /** `r` sits in `s` at offset `lead` with only whitespace before and after it. */
  predicate Frames(s: string, lead: int, r: string, sp: Spaces) {
    && 0 <= lead <= |s| - |r|
    && r == s[lead..lead + |r|]
    && AllSpaceIn(s[..lead], sp)
    && AllSpaceIn(s[lead + |r|..], sp)
  }

  /** A string strips to nothing exactly when it is all whitespace. */
  lemma TrimBlank(s: string, sp: Spaces)
    ensures |Strip(s, sp)| == 0 <==> AllSpaceIn(s, sp)
  {
    TrimFrames(s, sp);
    var lead :| Frames(s, lead, Strip(s, sp), sp);
    assert |Strip(s, sp)| > 0 ==> Strip(s, sp)[0] == s[lead];
    if |Strip(s, sp)| == 0 {
      forall i | 0 <= i < |s|
        ensures IsSpaceIn(s[i], sp)
      {
        if i < lead {
          assert s[..lead][i] == s[i];
        } else {
          assert s[lead..][i - lead] == s[i];
        }
      }
    }
  }

  /** A string that already has no whitespace at either end is its own strip. */
  lemma TrimNoop(s: string, sp: Spaces)
    requires |s| == 0 || (!IsSpaceIn(s[0], sp) && !IsSpaceIn(s[|s| - 1], sp))
    ensures Strip(s, sp) == s
  {
  }

  /** The ASCII separators U+001C to U+001F are whitespace to `str.strip()`
      but not to `int()`: `"\x1c5"` strips to `"5"` yet is its own trim for
      `int()`. */
  lemma SeparatorNotIntSpace()
    ensures Trim([28 as char, '5']) == "5"
    ensures Strip([28 as char, '5'], IntSpaces) == [28 as char, '5']
  {
    var c: char := 28 as char;
    var s := [c, '5'];
    assert IsSpaceIn(c, StrSpaces) && !IsSpaceIn(c, IntSpaces);
    assert !IsSpaceIn('5', StrSpaces) && !IsSpaceIn('5', IntSpaces);
    assert s[1..] == "5";
    assert TrimStart("5", StrSpaces) == "5";
    assert TrimStart(s, StrSpaces) == "5";
    assert TrimEnd("5", StrSpaces) == "5";
    TrimNoop(s, IntSpaces);
  }

  /** Position of the first `c` in `s`, or `|s|` when there is none. */
  function IndexOf(s: string, c: char): (i: nat)
    ensures i <= |s|
    ensures c !in s[..i]
    ensures i < |s| ==> s[i] == c
    decreases |s|
  {
    if |s| == 0 || s[0] == c then 0
    else
      var i := IndexOf(s[1..], c);
      assert s[..i + 1] == [s[0]] + s[1..][..i];
      1 + i
  }

  /** Python's `s.split(sep)`: the maximal separator-free pieces between
      occurrences of `sep`; the empty string splits into one empty piece. */
  function Split(s: string, sep: char): (r: seq<string>)
    ensures |r| >= 1
    ensures forall k :: 0 <= k < |r| ==> sep !in r[k]
    decreases |s|
  {
    var i := IndexOf(s, sep);
    if i == |s| then
      assert s[..i] == s;
      [s]
    else
      [s[..i]] + Split(s[i + 1..], sep)
  }

  /** Python's `sep.join(ps)`. */
  function Join(ps: seq<string>, sep: char): string
    decreases |ps|
  {
    if |ps| == 0 then []
    else if |ps| == 1 then ps[0]
    else ps[0] + [sep] + Join(ps[1..], sep)
  }

  /** Joining the pieces of a split gives the original string back. */
  lemma {:induction false} JoinSplit(s: string, sep: char)
    ensures Join(Split(s, sep), sep) == s
    decreases |s|
  {
    var i := IndexOf(s, sep);
    if i < |s| {
      var rest := Split(s[i + 1..], sep);
      JoinSplit(s[i + 1..], sep);
      var ps := [s[..i]] + rest;
      assert Split(s, sep) == ps;
      assert ps[1..] == rest;
      assert Join(ps, sep) == s[..i] + [sep] + Join(rest, sep);
      assert s == s[..i] + [sep] + s[i + 1..];
    } else {
      assert Split(s, sep) == [s];
    }
  }

  /** Splitting a join of separator-free pieces gives the pieces back. */
  lemma {:induction false} SplitJoin(ps: seq<string>, sep: char)
    requires |ps| >= 1
    requires forall k :: 0 <= k < |ps| ==> sep !in ps[k]
    ensures Split(Join(ps, sep), sep) == ps
    decreases |ps|
  {
    if |ps| == 1 {
      assert sep !in ps[0];
    } else {
      var p := ps[0];
      var tail := Join(ps[1..], sep);
      var s := p + [sep] + tail;
      assert Join(ps, sep) == s;
      var i := IndexOf(s, sep);
      assert s[..|p|] == p;
      assert s[|p|] == sep;
      assert i == |p|;
      assert s[i + 1..] == tail;
      SplitJoin(ps[1..], sep);
      assert ps == [p] + ps[1..];
    }
  }
}
