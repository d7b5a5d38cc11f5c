/** The string operations of the standard library the solvers rely on:
    `find`, `contains`, `split` on a character predicate and `split` on a
    separator string. Indices are character positions; Rust uses byte
    positions, which coincide with them on ASCII text. Where a solver slices
    at a byte position that can fall inside a multi-byte character, its model
    checks `IsAscii` on the character next to the cut. */
module Text {
  import opened Wrappers

  /** `c` is encoded in UTF-8 as a single byte. */
  predicate IsAscii(c: char) {
    c as int < 0x80
  }

  /** `pat` occurs in `s` starting at position `i`. */
  predicate MatchesAt(s: string, pat: string, i: nat) {
    i + |pat| <= |s| && s[i..i + |pat|] == pat
  }

  /** `s.find(pat)`: the leftmost position where `pat` occurs, if any. */
  function Find(s: string, pat: string): (r: Option<nat>)
    ensures r.Some? ==> MatchesAt(s, pat, r.value)
    ensures r.Some? ==> forall j :: 0 <= j < r.value ==> !MatchesAt(s, pat, j)
    ensures r.None? ==> forall j :: 0 <= j <= |s| ==> !MatchesAt(s, pat, j)
  {
    FindFrom(s, pat, 0)
  }

  function FindFrom(s: string, pat: string, from: nat): (r: Option<nat>)
    requires from <= |s| + 1
    requires forall j :: 0 <= j < from ==> !MatchesAt(s, pat, j)
    ensures r.Some? ==> from <= r.value && MatchesAt(s, pat, r.value)
    ensures r.Some? ==> forall j :: 0 <= j < r.value ==> !MatchesAt(s, pat, j)
    ensures r.None? ==> forall j :: 0 <= j <= |s| ==> !MatchesAt(s, pat, j)
    decreases |s| + 1 - from
  {
    if from + |pat| > |s| then None
    else if s[from..from + |pat|] == pat then Some(from)
    else FindFrom(s, pat, from + 1)
  }

  /** The leftmost match is what `find` reports. */
  lemma FindLeftmost(s: string, pat: string, k: nat)
    requires MatchesAt(s, pat, k)
    requires forall j :: 0 <= j < k ==> !MatchesAt(s, pat, j)
    ensures Find(s, pat) == Some(k)
  {
  }

  /** No match can start where the first character of the pattern is absent. */
  lemma NoMatchWithoutFirst(s: string, pat: string, k: nat)
    requires |pat| > 0
    requires forall j :: 0 <= j < k && j < |s| ==> s[j] != pat[0]
    ensures forall j :: 0 <= j < k ==> !MatchesAt(s, pat, j)
  {
    forall j | 0 <= j < k
      ensures !MatchesAt(s, pat, j)
    {
      if j + |pat| <= |s| {
        assert s[j..j + |pat|][0] == s[j] != pat[0];
      }
    }
  }

  /** `s.contains(pat)`: `pat` occurs somewhere in `s`. */
  predicate Contains(s: string, pat: string) {
    exists i :: 0 <= i <= |s| && MatchesAt(s, pat, i)
  }

  /** `contains` holds exactly when `find` reports a position. */
  lemma ContainsFind(s: string, pat: string)
    ensures Contains(s, pat) <==> Find(s, pat).Some?
  {
    if Find(s, pat).Some? {
      assert MatchesAt(s, pat, Find(s, pat).value);
    }
  }

  /** Number of characters of `s` satisfying `p`. */
  function CountWhere(s: string, p: char -> bool): nat {
    if |s| == 0 then 0 else (if p(s[0]) then 1 else 0) + CountWhere(s[1..], p)
  }

  /** The characters of `s` not satisfying `p`, in order. */
  function Without(s: string, p: char -> bool): string {
    if |s| == 0 then "" else (if p(s[0]) then "" else [s[0]]) + Without(s[1..], p)
  }

  /** Concatenation of all pieces. */
  function Concat(pieces: seq<string>): string {
    if |pieces| == 0 then "" else pieces[0] + Concat(pieces[1..])
  }

  /** `s.split(|c| isDelim(c))`: the maximal runs between delimiters, empty
      runs included. */
  function SplitWhere(s: string, isDelim: char -> bool): (r: seq<string>)
    ensures |r| > 0
  {
    if |s| == 0 then [""]
    else
      var rest := SplitWhere(s[1..], isDelim);
      if isDelim(s[0]) then [""] + rest
      else [[s[0]] + rest[0]] + rest[1..]
  }

  /** `k` delimiters always give `k + 1` pieces, no piece holds a
      delimiter, and the pieces hold every other character of `s`, in order. */
  lemma {:induction false} SplitWhereMeaning(s: string, isDelim: char -> bool)
    ensures |SplitWhere(s, isDelim)| == CountWhere(s, isDelim) + 1
    ensures forall i, j :: 0 <= i < |SplitWhere(s, isDelim)| && 0 <= j < |SplitWhere(s, isDelim)[i]| ==>
      !isDelim(SplitWhere(s, isDelim)[i][j])
    ensures Concat(SplitWhere(s, isDelim)) == Without(s, isDelim)
  {
    if |s| > 0 {
      SplitWhereMeaning(s[1..], isDelim);
      var rest := SplitWhere(s[1..], isDelim);
      if isDelim(s[0]) {
        assert ([""] + rest)[1..] == rest;
      } else {
        var r := [[s[0]] + rest[0]] + rest[1..];
        assert r[1..] == rest[1..];
        assert Concat(rest) == rest[0] + Concat(rest[1..]);
        forall i, j | 0 <= i < |r| && 0 <= j < |r[i]|
          ensures !isDelim(r[i][j])
        {
          if i == 0 && j > 0 {
            assert r[0][j] == rest[0][j - 1];
          } else if i > 0 {
            assert r[i] == rest[i];
          }
        }
      }
    }
  }

  /** A string with no delimiter is a single piece. */
  lemma {:induction false} SplitWhereNoDelimiter(s: string, isDelim: char -> bool)
    requires forall i :: 0 <= i < |s| ==> !isDelim(s[i])
    ensures SplitWhere(s, isDelim) == [s]
  {
    if |s| > 0 {
      SplitWhereNoDelimiter(s[1..], isDelim);
      assert [s[0]] + s[1..] == s;
    }
  }

  /** How the first character of a string shapes its pieces. */
  lemma SplitWhereFront(c: char, s: string, isDelim: char -> bool)
    ensures var rest := SplitWhere(s, isDelim);
      SplitWhere([c] + s, isDelim) == if isDelim(c) then [""] + rest else [[c] + rest[0]] + rest[1..]
  {
    assert ([c] + s)[1..] == s;
  }

  /** Splitting distributes over a delimiter: the pieces of `a + [d] + b`
      are the pieces of `a` followed by the pieces of `b`, the last piece of
      `a` and the first of `b` not being joined. */
  lemma {:induction false} SplitWhereAppend(a: string, d: char, b: string, isDelim: char -> bool)
    requires isDelim(d)
    ensures SplitWhere(a + [d] + b, isDelim) == SplitWhere(a, isDelim) + SplitWhere(b, isDelim)
  {
    if |a| == 0 {
      assert a + [d] + b == [d] + b;
      SplitWhereFront(d, b, isDelim);
    } else {
      var tail := a[1..] + [d] + b;
      assert a + [d] + b == [a[0]] + tail;
      assert a == [a[0]] + a[1..];
      SplitWhereAppend(a[1..], d, b, isDelim);
      SplitWhereFront(a[0], tail, isDelim);
      SplitWhereFront(a[0], a[1..], isDelim);
      var restA := SplitWhere(a[1..], isDelim);
      var restB := SplitWhere(b, isDelim);
      if isDelim(a[0]) {
        AppendAssoc([""], restA, restB);
      } else {
        ExtendFirst([a[0]], restA, restB);
      }
    }
  }

  lemma AppendAssoc<T>(u: seq<T>, v: seq<T>, w: seq<T>)
    ensures u + (v + w) == (u + v) + w
  {
  }

  /** Prefixing the first piece of `u + v` is prefixing the first piece of `u`. */
  lemma ExtendFirst(p: string, u: seq<string>, v: seq<string>)
    requires |u| > 0
    ensures [p + (u + v)[0]] + (u + v)[1..] == ([p + u[0]] + u[1..]) + v
  {
    assert (u + v)[0] == u[0];
    assert (u + v)[1..] == u[1..] + v;
  }

  /** `pieces[0] + [delims[0]] + pieces[1] + … + pieces[k]`. */
  function Interleave(pieces: seq<string>, delims: string): string
    requires |pieces| == |delims| + 1
  {
    if |delims| == 0 then pieces[0] else pieces[0] + [delims[0]] + Interleave(pieces[1..], delims[1..])
  }

  /** Unfolding an interleaving one piece at a time, from position `k`. */
  lemma InterleaveFrom(pieces: seq<string>, delims: string, k: nat)
    requires |pieces| == |delims| + 1 && k < |delims|
    ensures Interleave(pieces[k..], delims[k..]) == pieces[k] + [delims[k]] + Interleave(pieces[k + 1..], delims[k + 1..])
  {
    assert pieces[k..][1..] == pieces[k + 1..];
    assert delims[k..][1..] == delims[k + 1..];
  }

  /** Splitting undoes interleaving delimiter-free pieces with delimiters. */
  lemma {:induction false} SplitWhereInterleave(pieces: seq<string>, delims: string, isDelim: char -> bool)
    requires |pieces| == |delims| + 1
    requires forall i :: 0 <= i < |delims| ==> isDelim(delims[i])
    requires forall i, j :: 0 <= i < |pieces| && 0 <= j < |pieces[i]| ==> !isDelim(pieces[i][j])
    ensures SplitWhere(Interleave(pieces, delims), isDelim) == pieces
  {
    SplitWhereNoDelimiter(pieces[0], isDelim);
    if |delims| > 0 {
      SplitWhereInterleave(pieces[1..], delims[1..], isDelim);
      SplitWhereAppend(pieces[0], delims[0], Interleave(pieces[1..], delims[1..]), isDelim);
      assert pieces == [pieces[0]] + pieces[1..];
    }
  }

  /** Pieces joined by `sep`: the inverse of `SplitOn`. */
  function Join(pieces: seq<string>, sep: string): string
    requires |pieces| > 0
  {
    if |pieces| == 1 then pieces[0] else pieces[0] + sep + Join(pieces[1..], sep)
  }

  /** `s.split(sep)` for a non-empty separator: cut at every leftmost,
      non-overlapping occurrence of `sep`. */
  function SplitOn(s: string, sep: string): (r: seq<string>)
    requires |sep| > 0
    ensures |r| > 0
    ensures Join(r, sep) == s
    ensures forall i :: 0 <= i < |r| ==> !Contains(r[i], sep)
    decreases |s|
  {
    match Find(s, sep)
    case None => [s]
    case Some(i) =>
      var rest := SplitOn(s[i + |sep|..], sep);
      NoMatchBefore(s, sep, i);
      assert s == s[..i] + sep + s[i + |sep|..];
      [s[..i]] + rest
  }

  /** No occurrence of `sep` starts before `i` in `s`, so none lies inside `s[..i]`. */
  lemma NoMatchBefore(s: string, sep: string, i: nat)
    requires |sep| > 0 && i <= |s|
    requires forall j :: 0 <= j < i ==> !MatchesAt(s, sep, j)
    ensures !Contains(s[..i], sep)
  {
    var t := s[..i];
    if Find(t, sep).Some? {
      var j := Find(t, sep).value;
      assert t[j..j + |sep|] == s[j..j + |sep|];
      assert MatchesAt(s, sep, j);
      assert false;
    }
  }

  /** Splitting two pieces joined by `sep` gives the pieces back, when
      neither piece holds the first character of `sep`. */
  lemma SplitOnPair(a: string, sep: string, b: string)
    requires |sep| > 0
    requires forall k :: 0 <= k < |a| ==> a[k] != sep[0]
    requires forall k :: 0 <= k < |b| ==> b[k] != sep[0]
    ensures SplitOn(a + sep + b, sep) == [a, b]
  {
    var s := a + sep + b;
    assert s[|a|..|a| + |sep|] == sep;
    NoMatchWithoutFirst(s, sep, |a|);
    FindLeftmost(s, sep, |a|);
    assert s[..|a|] == a;
    assert s[|a| + |sep|..] == b;
    NoMatchWithoutFirst(b, sep, |b| + 1);
  }
}
