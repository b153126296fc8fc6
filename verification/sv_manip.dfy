/**
 * The string-view helpers of include/cli/sv_manip.h: `trim`, which drops
 * leading and trailing whitespace, and `split_string_view`, which cuts a
 * string at every occurrence of a delimiter character.
 */
module StringViews {

  /** `isspace` in the C locale: space, tab, newline, vertical tab, form feed, carriage return. */
  predicate IsSpace(c: char) {
    c == ' ' || c == '\t' || c == '\n' || c == 11 as char || c == 12 as char || c == '\r'
  }

  /** Every character of `s` is whitespace. */
  predicate AllSpace(s: string) {
    forall i :: 0 <= i < |s| ==> IsSpace(s[i])
  }

  /** `r` has no edge whitespace: it is empty, or its first and last characters are not whitespace. */
  predicate Tight(r: string) {
    r == [] || (!IsSpace(r[0]) && !IsSpace(r[|r| - 1]))
  }

  /** `r` sits in `s` at `b`, with only whitespace before and after it. */
  predicate Framed(s: string, b: nat, r: string) {
    && b + |r| <= |s|
    && s[b..b + |r|] == r
    && AllSpace(s[..b])
    && AllSpace(s[b + |r|..])
  }

  /** The position of the first non-whitespace character (`find_if_not`), or |s| when there is none. */
  function Lead(s: string): (b: nat)
    ensures b <= |s| && AllSpace(s[..b])
    ensures b < |s| ==> !IsSpace(s[b])
    decreases |s|
  {
    if s == [] || !IsSpace(s[0]) then 0
    else
      var b := 1 + Lead(s[1..]);
      assert forall i :: 1 <= i < b ==> s[i] == s[1..][i - 1];
      b
  }

  /**
   * The position just past the last non-whitespace character (the base of
   * the reverse `find_if_not`), or 0 when there is none.
   */
  function TailEnd(s: string): (e: nat)
    ensures e <= |s| && AllSpace(s[e..])
    ensures e > 0 ==> !IsSpace(s[e - 1])
    decreases |s|
  {
    if s == [] || !IsSpace(s[|s| - 1]) then |s|
    else
      var e := TailEnd(s[..|s| - 1]);
      assert forall i :: e <= i < |s| - 1 ==> s[i] == s[..|s| - 1][i];
      e
  }

  /** A non-whitespace character at i lies between the two ends found by `trim`. */
  lemma EndsAround(s: string, i: nat)
    requires i < |s| && !IsSpace(s[i])
    ensures Lead(s) <= i < TailEnd(s)
  {
    PrefixSpace(s, Lead(s));
    SuffixSpace(s, TailEnd(s));
  }

  /** Every character before b is whitespace when the prefix of length b is. */
  lemma PrefixSpace(s: string, b: nat)
    requires b <= |s| && AllSpace(s[..b])
    ensures forall i :: 0 <= i < b ==> IsSpace(s[i])
  {
    forall i | 0 <= i < b
      ensures IsSpace(s[i])
    {
      assert s[..b][i] == s[i];
    }
  }

  /** Every character from e on is whitespace when the suffix from e is. */
  lemma SuffixSpace(s: string, e: nat)
    requires e <= |s| && AllSpace(s[e..])
    ensures forall i :: e <= i < |s| ==> IsSpace(s[i])
  {
    forall i | e <= i < |s|
      ensures IsSpace(s[i])
    {
      assert s[e..][i - e] == s[i];
    }
  }

  /**
   * `trim`: the part of `s` between its leading and its trailing
   * whitespace; empty when the two ends cross, that is when `s` is all
   * whitespace.
   */
  function Trim(s: string): (r: string)
    ensures exists b :: Framed(s, b, r)
    ensures Tight(r)
    ensures r == [] <==> AllSpace(s)
  {
    var b := Lead(s);
    var e := TailEnd(s);
    EndsCross(s);
    if b >= e then
      assert Framed(s, 0, []) by {
        assert s[..0] == [] && s[0..] == s;
      }
      []
    else
      var r := s[b..e];
      assert Framed(s, b, r) by {
        assert s[b..b + |r|] == r;
      }
      assert r[0] == s[b] && r[|r| - 1] == s[e - 1];
      r
  }

  /** The two ends found by `trim` cross exactly when the string is all whitespace. */
  lemma EndsCross(s: string)
    ensures Lead(s) >= TailEnd(s) <==> AllSpace(s)
  {
    if !AllSpace(s) {
      var i :| 0 <= i < |s| && !IsSpace(s[i]);
      EndsAround(s, i);
    }
  }

  /** A string with no edge whitespace is returned unchanged. */
  lemma TrimUnchanged(s: string)
    requires Tight(s)
    ensures Trim(s) == s
  {
    if s != [] {
      assert Lead(s) == 0;
      assert TailEnd(s) == |s|;
      assert s[0..|s|] == s;
    }
  }

  /** Trimming twice is trimming once. */
  lemma TrimIdempotent(s: string)
    ensures Trim(Trim(s)) == Trim(s)
  {
    TrimUnchanged(Trim(s));
  }

  // ---------------------------------------------------------------------
  // split_string_view
  // ---------------------------------------------------------------------

  /** The position of the first `d` at or after `from`, or |s| when there is none (`find`). */
  function FindFrom(s: string, d: char, from: nat): (i: nat)
    requires from <= |s|
    ensures from <= i <= |s|
    decreases |s| - from
  {
    if from == |s| then |s|
    else if s[from] == d then from
    else FindFrom(s, d, from + 1)
  }

  /** `find` stops at the first delimiter: none before it, and one at it unless it is the end. */
  lemma {:induction false} FindSpec(s: string, d: char, from: nat)
    requires from <= |s|
    ensures forall j :: from <= j < FindFrom(s, d, from) ==> s[j] != d
    ensures FindFrom(s, d, from) < |s| ==> s[FindFrom(s, d, from)] == d
    decreases |s| - from
  {
    if from < |s| && s[from] != d {
      FindSpec(s, d, from + 1);
    }
  }

  /**
   * Reference definition of `split_string_view` from cursor `start`: the
   * text up to the next delimiter, then the pieces after it; nothing once
   * the cursor reaches the end, so a delimiter at the very end starts no
   * piece.
   */
  function SplitFrom(s: string, d: char, start: nat): (r: seq<string>)
    requires start <= |s|
    ensures r == [] <==> start == |s|
    decreases |s| - start
  {
    if start == |s| then []
    else
      var e := FindFrom(s, d, start);
      if e == |s| then [s[start..]] else [s[start..e]] + SplitFrom(s, d, e + 1)
  }

  /** `split_string_view` of the whole string. */
  function Split(s: string, d: char): (r: seq<string>)
    ensures r == [] <==> s == []
    ensures forall k :: 0 <= k < |r| ==> d !in r[k]
  {
    SplitPiecesClean(s, d, 0);
    SplitFrom(s, d, 0)
  }

  /** The pieces joined back with the delimiter between consecutive pieces. */
  function Join(pieces: seq<string>, d: char): string
    decreases |pieces|
  {
    if pieces == [] then []
    else if |pieces| == 1 then pieces[0]
    else pieces[0] + [d] + Join(pieces[1..], d)
  }

  /** The number of occurrences of `d` in `s` from position `from` on. */
  function CountFrom(s: string, d: char, from: nat): nat
    requires from <= |s|
    decreases |s| - from
  {
    if from == |s| then 0 else (if s[from] == d then 1 else 0) + CountFrom(s, d, from + 1)
  }

  /** Positions without the delimiter add nothing to the count. */
  lemma {:induction false} CountSkip(s: string, d: char, from: nat, stop: nat)
    requires from <= stop <= |s|
    requires forall j :: from <= j < stop ==> s[j] != d
    ensures CountFrom(s, d, from) == CountFrom(s, d, stop)
    decreases stop - from
  {
    if from < stop {
      CountSkip(s, d, from + 1, stop);
    }
  }

  /** The empty string splits into no pieces at all. */
  lemma SplitEmpty(d: char)
    ensures Split([], d) == []
  {
  }

  /** No piece contains the delimiter. */
  lemma {:induction false} SplitPiecesClean(s: string, d: char, start: nat)
    requires start <= |s|
    ensures forall k :: 0 <= k < |SplitFrom(s, d, start)| ==> d !in SplitFrom(s, d, start)[k]
    decreases |s| - start
  {
    if start < |s| {
      var e := FindFrom(s, d, start);
      FindSpec(s, d, start);
      var piece := if e == |s| then s[start..] else s[start..e];
      assert d !in piece by {
        forall j | 0 <= j < |piece|
          ensures piece[j] != d
        {
          assert piece[j] == s[start + j];
        }
      }
      if e < |s| {
        SplitPiecesClean(s, d, e + 1);
        var rest := SplitFrom(s, d, e + 1);
        forall k | 1 <= k < |SplitFrom(s, d, start)|
          ensures d !in SplitFrom(s, d, start)[k]
        {
          assert SplitFrom(s, d, start)[k] == rest[k - 1];
        }
      }
    }
  }

  /** A delimiter at the front gives an empty first piece. */
  lemma SplitLeading(s: string, d: char)
    requires s != [] && s[0] == d
    ensures Split(s, d) != [] && Split(s, d)[0] == []
  {
  }

  /** Two consecutive delimiters at or after the cursor give an empty piece between them. */
  lemma {:induction false} SplitConsecutive(s: string, d: char, start: nat, k: nat)
    requires start <= k && k + 1 < |s| && s[k] == d && s[k + 1] == d
    ensures [] in SplitFrom(s, d, start)
    decreases |s| - start
  {
    var e := FindFrom(s, d, start);
    FindSpec(s, d, start);
    var rest := SplitFrom(s, d, e + 1);
    assert SplitFrom(s, d, start) == [s[start..e]] + rest;
    if e == k {
      FindSpec(s, d, k + 1);
      assert FindFrom(s, d, k + 1) == k + 1;
      assert rest[0] == [];
    } else {
      SplitConsecutive(s, d, e + 1, k);
    }
  }

  /** Joining a piece in front of further pieces puts one delimiter between them. */
  lemma JoinCons(p: string, rest: seq<string>, d: char)
    requires rest != []
    ensures Join([p] + rest, d) == p + [d] + Join(rest, d)
  {
    assert ([p] + rest)[1..] == rest;
  }

  /**
   * Split and join are inverse on input that does not end with the
   * delimiter, and the number of pieces is one more than the number of
   * delimiters; on input that ends with it, the join gives everything but
   * that last delimiter, and there are as many pieces as delimiters.
   */
  lemma {:induction false} SplitJoin(s: string, d: char, start: nat)
    requires start < |s|
    ensures s[|s| - 1] != d ==>
      Join(SplitFrom(s, d, start), d) == s[start..] && |SplitFrom(s, d, start)| == CountFrom(s, d, start) + 1
    ensures s[|s| - 1] == d ==>
      Join(SplitFrom(s, d, start), d) + [d] == s[start..] && |SplitFrom(s, d, start)| == CountFrom(s, d, start)
    decreases |s| - start
  {
    var e := FindFrom(s, d, start);
    FindSpec(s, d, start);
    CountSkip(s, d, start, e);
    if e < |s| {
      var piece := s[start..e];
      assert CountFrom(s, d, e) == 1 + CountFrom(s, d, e + 1);
      assert s[start..] == piece + [d] + s[e + 1..];
      if e + 1 < |s| {
        var rest := SplitFrom(s, d, e + 1);
        assert SplitFrom(s, d, start) == [piece] + rest;
        JoinCons(piece, rest, d);
        SplitJoin(s, d, e + 1);
      } else {
        assert SplitFrom(s, d, start) == [piece];
      }
    } else {
      assert SplitFrom(s, d, start) == [s[start..]];
      assert CountFrom(s, d, e) == 0;
    }
  }

  /** On the whole string: input not ending with the delimiter is the join of its pieces. */
  lemma SplitJoinWhole(s: string, d: char)
    requires s != [] && s[|s| - 1] != d
    ensures Join(Split(s, d), d) == s
    ensures |Split(s, d)| == CountFrom(s, d, 0) + 1
  {
    SplitJoin(s, d, 0);
    assert s[0..] == s;
  }

  /**
   * `split_string_view` as the source runs it: a cursor moves past each
   * delimiter found; the text from the cursor to the next delimiter, or to
   * the end when there is none, is one piece.
   */
  method SplitStringView(s: string, d: char) returns (result: seq<string>)
    ensures result == Split(s, d)
  {
    result := [];
    var start := 0;
    while start < |s|
      invariant start <= |s|
      invariant Split(s, d) == result + SplitFrom(s, d, start)
      decreases |s| - start
    {
      var e := FindFrom(s, d, start);
      if e == |s| {
        result := result + [s[start..]];
        return;
      }
      result := result + [s[start..e]];
      start := e + 1;
    }
  }
}
