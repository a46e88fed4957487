/**
 * The few JavaScript string operations the bot relies on: `String.prototype.trim`
 * and `split(' ')`, as used when reading a `/start` command and a presented code.
 */
module Text {

  /** WhiteSpace and LineTerminator code points, the characters `trim` removes (ECMA-262, section 22.1.3.32). */
  const JsSpaces: set<char> := {
    '\t', '\n', '\U{000B}', '\U{000C}', '\r', ' ', '\U{00A0}', '\U{1680}',
    '\U{2000}', '\U{2001}', '\U{2002}', '\U{2003}', '\U{2004}', '\U{2005}',
    '\U{2006}', '\U{2007}', '\U{2008}', '\U{2009}', '\U{200A}',
    '\U{2028}', '\U{2029}', '\U{202F}', '\U{205F}', '\U{3000}', '\U{FEFF}'
  }

  predicate IsJsSpace(c: char) {
    c in JsSpaces
  }

  predicate AllSpace(s: string) {
    forall i :: 0 <= i < |s| ==> IsJsSpace(s[i])
  }

  /** Every character of `s` at a position in [lo, hi) is white space. */
  predicate SpaceBetween(s: string, lo: int, hi: int)
    requires 0 <= lo <= hi <= |s|
  {
    forall i :: lo <= i < hi ==> IsJsSpace(s[i])
  }

  /** A string that `trim` leaves as it is: it neither starts nor ends with white space. */
  predicate IsTrimmed(s: string) {
    s == [] || (!IsJsSpace(s[0]) && !IsJsSpace(s[|s| - 1]))
  }

  /** The first position at or after `i` that does not hold white space (`|s|` if none). */
  function SkipSpace(s: string, i: nat): (n: nat)
    requires i <= |s|
    ensures i <= n <= |s| && SpaceBetween(s, i, n)
    ensures n < |s| ==> !IsJsSpace(s[n])
    decreases |s| - i
  {
    if i < |s| && IsJsSpace(s[i]) then SkipSpace(s, i + 1) else i
  }

  /** The end of `s[lo..j]` once its trailing white space is cut off. */
  function SkipSpaceBack(s: string, lo: nat, j: nat): (m: nat)
    requires lo <= j <= |s|
    ensures lo <= m <= j && SpaceBetween(s, m, j)
    ensures m > lo ==> !IsJsSpace(s[m - 1])
    decreases j - lo
  {
    if j > lo && IsJsSpace(s[j - 1]) then SkipSpaceBack(s, lo, j - 1) else j
  }

  /**
   * `trim`: `s` without its leading and trailing white space. The result is the
   * piece of `s` between two positions, whatever was cut on either side is white
   * space, and the result itself is trimmed.
   */
  function Trim(s: string): (r: string)
    ensures IsTrimmed(r)
    ensures var lo := SkipSpace(s, 0);
      var hi := SkipSpaceBack(s, lo, |s|);
      && r == s[lo..hi]
      && SpaceBetween(s, 0, lo)
      && SpaceBetween(s, hi, |s|)
  {
    var lo := SkipSpace(s, 0);
    var hi := SkipSpaceBack(s, lo, |s|);
    s[lo..hi]
  }

  /** Trimming a trimmed string changes nothing; hence `trim` is idempotent. */
  lemma TrimOfTrimmed(s: string)
    requires IsTrimmed(s)
    ensures Trim(s) == s
  {
    assert SkipSpace(s, 0) == 0;
    assert SkipSpaceBack(s, 0, |s|) == |s|;
    assert s[0..|s|] == s;
  }

  lemma TrimIdempotent(s: string)
    ensures Trim(Trim(s)) == Trim(s)
  {
    TrimOfTrimmed(Trim(s));
  }

  /** A string made only of white space trims to the empty string, and only such a string does. */
  lemma TrimEmpty(s: string)
    ensures Trim(s) == "" <==> AllSpace(s)
  {
    var lo := SkipSpace(s, 0);
    var hi := SkipSpaceBack(s, lo, |s|);
    if Trim(s) != "" {
      assert Trim(s)[0] == s[lo];
    }
  }

  /**
   * `s.split(' ')`: the pieces between the single-space separators, empty pieces
   * included, so that a string with n spaces yields n + 1 pieces.
   */
  function SplitOnSpace(s: string): (parts: seq<string>)
    ensures |parts| >= 1
    ensures forall k :: 0 <= k < |parts| ==> ' ' !in parts[k]
    decreases |s|
  {
    if s == [] then [""]
    else
      var rest := SplitOnSpace(s[1..]);
      if s[0] == ' ' then [""] + rest else [[s[0]] + rest[0]] + rest[1..]
  }

  /** `parts.join(' ')`, the inverse of `SplitOnSpace`. */
  function JoinWithSpace(parts: seq<string>): string
    decreases |parts|
  {
    if |parts| == 0 then ""
    else if |parts| == 1 then parts[0]
    else parts[0] + " " + JoinWithSpace(parts[1..])
  }

  /** Joining the pieces of a split gives back the original string. */
  lemma {:induction false} JoinSplit(s: string)
    ensures JoinWithSpace(SplitOnSpace(s)) == s
    decreases |s|
  {
    if s != [] {
      var rest := SplitOnSpace(s[1..]);
      JoinSplit(s[1..]);
      assert s == [s[0]] + s[1..];
      if s[0] == ' ' {
        assert SplitOnSpace(s) == [""] + rest;
        JoinCons("", rest);
      } else {
        var c, r0, more := s[0], rest[0], rest[1..];
        assert SplitOnSpace(s) == [[c] + r0] + more;
        if |rest| == 1 {
          assert JoinWithSpace(rest) == r0;
        } else {
          assert rest == [r0] + more;
          JoinCons(r0, more);
          JoinCons([c] + r0, more);
          ConcatAssoc([c], r0 + " ", JoinWithSpace(more));
          ConcatAssoc([c], r0, " ");
        }
      }
    }
  }

  /** Splitting the join of space-free pieces gives back those pieces. */
  lemma {:induction false} SplitJoin(parts: seq<string>)
    requires |parts| >= 1
    requires forall k :: 0 <= k < |parts| ==> ' ' !in parts[k]
    ensures SplitOnSpace(JoinWithSpace(parts)) == parts
    decreases |parts|, |parts[0]|
  {
    if |parts| == 1 {
      SplitSpaceFree(parts[0]);
    } else if parts[0] == "" {
      SplitJoin(parts[1..]);
      SplitJoinEmptyHead(parts);
    } else {
      SpaceFreeTail(parts);
      SplitJoin([parts[0][1..]] + parts[1..]);
      SplitJoinCharHead(parts);
    }
  }

  /** The step of `SplitJoin` for an empty first piece: the join starts with the separator. */
  lemma SplitJoinEmptyHead(parts: seq<string>)
    requires |parts| >= 2 && parts[0] == ""
    requires SplitOnSpace(JoinWithSpace(parts[1..])) == parts[1..]
    ensures SplitOnSpace(JoinWithSpace(parts)) == parts
  {
    var j := JoinWithSpace(parts[1..]);
    assert parts == [""] + parts[1..];
    JoinCons("", parts[1..]);
    assert "" + " " + j == [' '] + j;
    assert ([' '] + j)[1..] == j;
  }

  /** The step of `SplitJoin` for a non-empty first piece: its first character heads the first piece of the split. */
  lemma SplitJoinCharHead(parts: seq<string>)
    requires |parts| >= 1 && parts[0] != "" && ' ' !in parts[0]
    requires SplitOnSpace(JoinWithSpace([parts[0][1..]] + parts[1..])) == [parts[0][1..]] + parts[1..]
    ensures SplitOnSpace(JoinWithSpace(parts)) == parts
  {
    var p, rest := parts[0], parts[1..];
    var c, t := p[0], p[1..];
    var shorter := [t] + rest;
    var j := JoinWithSpace(shorter);
    JoinFirstChar(parts);
    assert c != ' ' by {
      assert c in p;
    }
    SplitNonSpaceCons(c, j);
    var sj := SplitOnSpace(j);
    assert sj[0] == t && sj[1..] == rest;
    assert [c] + t == p;
    assert parts == [p] + rest;
  }

  /** Dropping the first character of the first piece keeps all pieces space-free. */
  lemma SpaceFreeTail(parts: seq<string>)
    requires |parts| >= 1 && parts[0] != ""
    requires forall k :: 0 <= k < |parts| ==> ' ' !in parts[k]
    ensures var shorter := [parts[0][1..]] + parts[1..];
      forall k :: 0 <= k < |shorter| ==> ' ' !in shorter[k]
  {
    var p := parts[0];
    var shorter := [p[1..]] + parts[1..];
    forall k | 0 <= k < |shorter| ensures ' ' !in shorter[k] {
      if k == 0 {
        assert forall c :: c in p[1..] ==> c in p;
      } else {
        assert shorter[k] == parts[k];
      }
    }
  }

  /** The join starts with the first character of a non-empty first piece, followed by the join of the rest. */
  lemma JoinFirstChar(parts: seq<string>)
    requires |parts| >= 1 && parts[0] != ""
    ensures JoinWithSpace(parts) == [parts[0][0]] + JoinWithSpace([parts[0][1..]] + parts[1..])
  {
    var p := parts[0];
    assert p == [p[0]] + p[1..];
    if |parts| >= 2 {
      JoinFirstCharOfMany(parts);
    }
  }

  lemma JoinFirstCharOfMany(parts: seq<string>)
    requires |parts| >= 2 && parts[0] != ""
    ensures JoinWithSpace(parts) == [parts[0][0]] + JoinWithSpace([parts[0][1..]] + parts[1..])
  {
    var p, rest := parts[0], parts[1..];
    var c, t, x := p[0], p[1..], JoinWithSpace(rest);
    assert parts == [p] + rest;
    JoinCons(p, rest);
    JoinCons(t, rest);
    assert p == [c] + t;
    ConcatAssoc([c], t, " ");
    ConcatAssoc([c], t + " ", x);
  }

  /** Joining a piece in front of at least one more piece puts a space between them. */
  lemma JoinCons(q: string, rest: seq<string>)
    requires |rest| >= 1
    ensures JoinWithSpace([q] + rest) == q + " " + JoinWithSpace(rest)
  {
    assert ([q] + rest)[1..] == rest;
  }

  lemma ConcatAssoc(a: string, b: string, c: string)
    ensures a + (b + c) == (a + b) + c
  {
  }

  /** A character other than a space extends the first piece of the split. */
  lemma SplitNonSpaceCons(c: char, s: string)
    requires c != ' '
    ensures var rest := SplitOnSpace(s);
      SplitOnSpace([c] + s) == [[c] + rest[0]] + rest[1..]
  {
    assert ([c] + s)[1..] == s;
  }

  /** A string without a space splits into itself alone. */
  lemma {:induction false} SplitSpaceFree(s: string)
    requires ' ' !in s
    ensures SplitOnSpace(s) == [s]
    decreases |s|
  {
    if s != [] {
      assert s[0] in s;
      assert forall c :: c in s[1..] ==> c in s;
      SplitSpaceFree(s[1..]);
      assert [s[0]] + s[1..] == s;
    }
  }

  /** Trimming every piece and dropping the empty ones: the trimmed pieces that are not empty, in order. */
  function NonEmptyTrimmed(parts: seq<string>): (r: seq<string>)
    ensures |r| <= |parts|
    ensures forall k :: 0 <= k < |r| ==> r[k] != "" && IsTrimmed(r[k])
    decreases |parts|
  {
    if parts == [] then []
    else
      var t := Trim(parts[0]);
      if t == "" then NonEmptyTrimmed(parts[1..]) else [t] + NonEmptyTrimmed(parts[1..])
  }

  /** The filter works piece by piece: filtering a concatenation concatenates the filtered parts, in order. */
  lemma {:induction false} NonEmptyTrimmedAppend(a: seq<string>, b: seq<string>)
    ensures NonEmptyTrimmed(a + b) == NonEmptyTrimmed(a) + NonEmptyTrimmed(b)
    decreases |a|
  {
    if a == [] {
      assert a + b == b;
    } else {
      assert (a + b)[0] == a[0];
      assert (a + b)[1..] == a[1..] + b;
      NonEmptyTrimmedAppend(a[1..], b);
    }
  }

  /** A single piece survives the filter, trimmed, exactly when it is not blank. */
  lemma NonEmptyTrimmedSingle(x: string)
    ensures NonEmptyTrimmed([x]) == if AllSpace(x) then [] else [Trim(x)]
  {
    TrimEmpty(x);
    assert [x][1..] == [];
  }

  /** Pieces that are already trimmed and non-empty all survive the filter, in order. */
  lemma {:induction false} NonEmptyTrimmedKeeps(ws: seq<string>)
    requires forall k :: 0 <= k < |ws| ==> ws[k] != "" && IsTrimmed(ws[k])
    ensures NonEmptyTrimmed(ws) == ws
    decreases |ws|
  {
    if ws != [] {
      TrimOfTrimmed(ws[0]);
      NonEmptyTrimmedKeeps(ws[1..]);
      assert ws == [ws[0]] + ws[1..];
    }
  }

  /** The words of a message: its pieces between single spaces, trimmed, without the empty ones. */
  function Words(text: string): (r: seq<string>)
    ensures forall k :: 0 <= k < |r| ==> r[k] != "" && IsTrimmed(r[k])
  {
    NonEmptyTrimmed(SplitOnSpace(text))
  }

  /** A message made of words separated by single spaces has exactly those words. */
  lemma WordsOfJoin(ws: seq<string>)
    requires |ws| >= 1
    requires forall k :: 0 <= k < |ws| ==> ws[k] != "" && IsTrimmed(ws[k]) && ' ' !in ws[k]
    ensures Words(JoinWithSpace(ws)) == ws
  {
    SplitJoin(ws);
    NonEmptyTrimmedKeeps(ws);
  }
}
