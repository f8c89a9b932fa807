/** The handful of Python `str` operations the transcript post-processing relies on:
    `str.isspace` on one character, `str.strip()`, `str.split(sep)` with a
    one-character separator, and `sep.join(pieces)`. */
module PyStr {

  /** `c.isspace()`: the code points Python classifies as whitespace
      (bidirectional class WS, B or S, or general category Zs). */
  predicate IsSpace(c: char) {
    var n := c as int;
    (0x09 <= n <= 0x0D) || (0x1C <= n <= 0x20) || n == 0x85 || n == 0xA0 || n == 0x1680
    || (0x2000 <= n <= 0x200A) || n == 0x2028 || n == 0x2029 || n == 0x202F
    || n == 0x205F || n == 0x3000
  }

  /** Every character is whitespace (so `s.strip()` is falsy). */
  predicate AllSpace(s: string) {
    forall i :: 0 <= i < |s| ==> IsSpace(s[i])
  }

  /** No whitespace at either end. */
  predicate Trimmed(s: string) {
    |s| == 0 || (!IsSpace(s[0]) && !IsSpace(s[|s| - 1]))
  }

  /** Cutting `s` at `i` and `j` leaves whitespace-only margins and a trimmed middle. */
  predicate StripCut(s: string, i: int, j: int) {
    0 <= i <= j <= |s| && AllSpace(s[..i]) && AllSpace(s[j..]) && Trimmed(s[i..j])
  }

  /** The meaning of `s.strip()`, independent of how it scans: `r` is trimmed and is
      what is left of `s` once a whitespace-only prefix and suffix are cut off. */
  ghost predicate IsStripOf(s: string, r: string) {
    exists i, j :: StripCut(s, i, j) && r == s[i..j]
  }

  /** Where the content of `s` starts when scanning from `i`: the first position at
      or after `i` that is not whitespace, or `|s|`. */
  function ContentStart(s: string, i: nat): (n: nat)
    requires i <= |s|
    ensures i <= n <= |s|
    ensures forall k :: i <= k < n ==> IsSpace(s[k])
    ensures n == |s| || !IsSpace(s[n])
    decreases |s| - i
  {
    if i < |s| && IsSpace(s[i]) then ContentStart(s, i + 1) else i
  }

  /** Where the content of `s` ends when scanning back from `j` towards `lo`: just
      after the last position before `j` that is not whitespace, or `lo`. */
  function ContentEnd(s: string, lo: nat, j: nat): (n: nat)
    requires lo <= j <= |s|
    ensures lo <= n <= j
    ensures forall k :: n <= k < j ==> IsSpace(s[k])
    ensures n == lo || !IsSpace(s[n - 1])
    decreases j - lo
  {
    if lo < j && IsSpace(s[j - 1]) then ContentEnd(s, lo, j - 1) else j
  }

  /** `s.strip()`: the text without surrounding whitespace; empty exactly when `s`
      is whitespace only. */
  function Strip(s: string): (r: string)
    ensures Trimmed(r)
    ensures r == [] <==> AllSpace(s)
  {
    var i := ContentStart(s, 0);
    s[i..ContentEnd(s, i, |s|)]
  }

  /** What `Strip` computes is a strip of `s` in the sense of `IsStripOf`. */
  lemma StripCutsMargins(s: string)
    ensures IsStripOf(s, Strip(s))
  {
    var i := ContentStart(s, 0);
    var j := ContentEnd(s, i, |s|);
    assert AllSpace(s[..i]) by {
      forall k | 0 <= k < i ensures IsSpace(s[..i][k]) { assert s[..i][k] == s[k]; }
    }
    assert AllSpace(s[j..]) by {
      forall k | 0 <= k < |s| - j ensures IsSpace(s[j..][k]) { assert s[j..][k] == s[j + k]; }
    }
    assert StripCut(s, i, j);
  }

  lemma AllSpaceConcat(a: string, b: string)
    ensures AllSpace(a + b) <==> AllSpace(a) && AllSpace(b)
  {
    assert forall k :: 0 <= k < |a| ==> (a + b)[k] == a[k];
    assert forall k :: 0 <= k < |b| ==> (a + b)[|a| + k] == b[k];
  }

  /** Whitespace-only prefix and suffix, stated on the indices of `s` itself. */
  lemma MarginsAreSpace(s: string, i: int, j: int)
    requires 0 <= i <= j <= |s| && AllSpace(s[..i]) && AllSpace(s[j..])
    ensures forall k :: 0 <= k < i ==> IsSpace(s[k])
    ensures forall k :: j <= k < |s| ==> IsSpace(s[k])
  {
    forall k | 0 <= k < i ensures IsSpace(s[k]) { assert s[..i][k] == s[k]; }
    forall k | j <= k < |s| ensures IsSpace(s[k]) { assert s[j..][k - j] == s[k]; }
  }

  /** Any two ways of cutting whitespace-only margins off `s` so that the middle is
      trimmed leave the same middle. */
  lemma CutsAgree(s: string, i: int, j: int, i': int, j': int)
    requires StripCut(s, i, j) && StripCut(s, i', j')
    ensures s[i..j] == s[i'..j']
  {
    MarginsAreSpace(s, i, j);
    MarginsAreSpace(s, i', j');
    assert i < j ==> !IsSpace(s[i]) && !IsSpace(s[j - 1]) by {
      if i < j { assert s[i] == s[i..j][0] && s[j - 1] == s[i..j][j - 1 - i]; }
    }
    assert i' < j' ==> !IsSpace(s[i']) && !IsSpace(s[j' - 1]) by {
      if i' < j' { assert s[i'] == s[i'..j'][0] && s[j' - 1] == s[i'..j'][j' - 1 - i']; }
    }
  }

  /** `strip()` has exactly one possible result: a string is a strip of `s` exactly
      when it is what `Strip` computes. */
  lemma StripCharacterized(s: string, r: string)
    ensures IsStripOf(s, r) <==> r == Strip(s)
  {
    StripCutsMargins(s);
    var q := Strip(s);
    var i', j' :| StripCut(s, i', j') && q == s[i'..j'];
    if IsStripOf(s, r) {
      var i, j :| StripCut(s, i, j) && r == s[i..j];
      CutsAgree(s, i, j, i', j');
    }
  }

  /** Stripping twice is stripping once. */
  lemma StripIdempotent(s: string)
    ensures Strip(Strip(s)) == Strip(s)
  {
    StripOfTrimmed(Strip(s));
  }

  /** A string with no surrounding whitespace is its own `strip()`. */
  lemma StripOfTrimmed(s: string)
    requires Trimmed(s)
    ensures Strip(s) == s
  {
    assert StripCut(s, 0, |s|) && s == s[0..|s|];
    StripCharacterized(s, s);
  }

  /** Stripping never introduces a character that was not in the input. */
  lemma StripKeepsOnlyOwnChars(s: string, c: char)
    requires c !in s
    ensures c !in Strip(s)
  {
    StripCutsMargins(s);
    var r := Strip(s);
    var i, j :| StripCut(s, i, j) && r == s[i..j];
  }

  /** `sep.join(ps)`. */
  function Join(ps: seq<string>, sep: string): string
  {
    if |ps| == 0 then ""
    else if |ps| == 1 then ps[0]
    else ps[0] + sep + Join(ps[1..], sep)
  }

  /** Gluing a string onto the front of the first piece is gluing it onto the join. */
  lemma {:induction false} JoinPrependHead(x: string, ps: seq<string>, sep: string)
    requires |ps| >= 1
    ensures Join([x + ps[0]] + ps[1..], sep) == x + Join(ps, sep)
  {
    var qs := [x + ps[0]] + ps[1..];
    assert qs[1..] == ps[1..];
    if |ps| > 1 {
      assert Join(qs, sep) == (x + ps[0]) + sep + Join(ps[1..], sep);
    }
  }

  /** `s.split(sep)` for a single-character separator: one more piece than there are
      separators, empty pieces kept, no piece containing the separator, and joining the
      pieces back with the separator gives `s`. */
  function Split(s: string, sep: char): (r: seq<string>)
    ensures |r| >= 1
    ensures forall i :: 0 <= i < |r| ==> sep !in r[i]
    ensures Join(r, [sep]) == s
  {
    if |s| == 0 then [""]
    else
      var rest := Split(s[1..], sep);
      if s[0] == sep then
        assert ([""] + rest)[1..] == rest;
        assert s == [sep] + s[1..];
        [""] + rest
      else
        JoinPrependHead([s[0]], rest, sep := [sep]);
        assert s == [s[0]] + s[1..];
        [[s[0]] + rest[0]] + rest[1..]
  }

  /** A piece without the separator splits to itself. */
  lemma {:induction false} SplitNoSeparator(x: string, sep: char)
    requires sep !in x
    ensures Split(x, sep) == [x]
  {
    if |x| > 0 {
      SplitNoSeparator(x[1..], sep);
      assert [x[0]] + x[1..] == x;
    }
  }

  /** Splitting `x + sep + t` where `x` has no separator yields `x` then the pieces of `t`. */
  lemma {:induction false} SplitFirstPiece(x: string, t: string, sep: char)
    requires sep !in x
    ensures Split(x + [sep] + t, sep) == [x] + Split(t, sep)
  {
    var s := x + [sep] + t;
    if |x| == 0 {
      assert s[1..] == t;
    } else {
      assert s[1..] == x[1..] + [sep] + t;
      SplitFirstPiece(x[1..], t, sep);
      assert [x[0]] + x[1..] == x;
    }
  }

  /** Split undoes Join: separator-free pieces are recovered exactly. */
  lemma {:induction false} SplitOfJoin(ps: seq<string>, sep: char)
    requires |ps| >= 1
    requires forall i :: 0 <= i < |ps| ==> sep !in ps[i]
    ensures Split(Join(ps, [sep]), sep) == ps
  {
    if |ps| == 1 {
      SplitNoSeparator(ps[0], sep);
    } else {
      SplitOfJoin(ps[1..], sep);
      SplitFirstPiece(ps[0], Join(ps[1..], [sep]), sep);
      assert [ps[0]] + ps[1..] == ps;
    }
  }
}
