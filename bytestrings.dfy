/** Byte strings and the operations of Python's `bytes` type that the Contents
    parser relies on: `split()` with no argument, `split(sep)` with a one-byte
    separator, `strip()`, and the line splitting that `readlines()` performs
    on a decompressed stream. `Join` and `Concat` are their inverses, defined
    only to state the round trips. */
module ByteStrings {

  import opened Seqs

  newtype byte = x: int | 0 <= x < 256

  type bytes = seq<byte>

  const TAB: byte := 9
  const NEWLINE: byte := 10
  const CARRIAGE_RETURN: byte := 13
  const SPACE: byte := 32
  const COMMA: byte := 44

  /** ASCII whitespace as Python's bytes methods define it:
      space, \t, \n, \v (11), \f (12) and \r. */
  predicate IsSpace(b: byte)
  {
    b == SPACE || TAB <= b <= CARRIAGE_RETURN
  }

  predicate NoSpace(s: bytes)
  {
    forall i :: 0 <= i < |s| ==> !IsSpace(s[i])
  }

  predicate AllSpace(s: bytes)
  {
    forall i :: 0 <= i < |s| ==> IsSpace(s[i])
  }

  // ---------------------------------------------------------------------------
  // bytes.split() : runs of whitespace separate tokens; no empty tokens

  /** Length of the longest whitespace-free prefix of `s`. */
  function TokenLen(s: bytes): (n: nat)
    ensures n <= |s|
    ensures NoSpace(s[..n])
    ensures n < |s| ==> IsSpace(s[n])
  {
    if s == [] || IsSpace(s[0]) then 0 else 1 + TokenLen(s[1..])
  }

  /** `s.split()`: the maximal whitespace-free runs of `s`, left to right. */
  function Split(s: bytes): (r: seq<bytes>)
    ensures forall i :: 0 <= i < |r| ==> r[i] != [] && NoSpace(r[i])
    decreases |s|
  {
    if s == [] then []
    else if IsSpace(s[0]) then Split(s[1..])
    else
      var n := TokenLen(s);
      [s[..n]] + Split(s[n..])
  }

  /** `s.split()` is empty exactly when `s` is empty or all whitespace. */
  lemma {:induction false} SplitEmptyIff(s: bytes)
    ensures Split(s) == [] <==> AllSpace(s)
    decreases |s|
  {
    if s != [] && IsSpace(s[0]) {
      SplitEmptyIff(s[1..]);
      assert AllSpace(s) <==> AllSpace(s[1..]) by {
        assert forall i :: 0 < i < |s| ==> s[i] == s[1..][i - 1];
      }
    }
  }

  /** A single whitespace-free token splits into itself. */
  lemma SplitToken(t: bytes)
    requires t != [] && NoSpace(t)
    ensures Split(t) == [t]
  {
    var n := TokenLen(t);
    assert n == |t|;
    assert t[..n] == t;
    assert t[n..] == [];
  }

  /** A whitespace byte between two byte strings separates their tokens:
      nothing of `a` and nothing of `b` can be glued into one token. */
  lemma {:induction false} SplitConcat(a: bytes, w: byte, b: bytes)
    requires IsSpace(w)
    ensures Split(a + [w] + b) == Split(a) + Split(b)
    decreases |a|
  {
    var s := a + [w] + b;
    if a == [] {
      assert s[1..] == b;
    } else if IsSpace(a[0]) {
      assert s[0] == a[0];
      assert s[1..] == a[1..] + [w] + b;
      SplitConcat(a[1..], w, b);
    } else {
      var n := TokenLen(a);
      assert s[..|a|] == a;
      assert s[|a|] == w;
      TokenLenUnique(s, n);
      assert s[..n] == a[..n];
      assert s[n..] == a[n..] + [w] + b;
      SplitConcat(a[n..], w, b);
      AppendAssoc([a[..n]], Split(a[n..]), Split(b));
    }
  }

  /** The whitespace-free prefix of `s` is determined by its two defining facts. */
  lemma TokenLenUnique(s: bytes, n: nat)
    requires n <= |s| && NoSpace(s[..n]) && (n < |s| ==> IsSpace(s[n]))
    ensures TokenLen(s) == n
  {
    var m := TokenLen(s);
    assert forall j :: 0 <= j < n ==> !IsSpace(s[j]) by {
      forall j | 0 <= j < n ensures !IsSpace(s[j]) { assert s[..n][j] == s[j]; }
    }
    assert forall j :: 0 <= j < m ==> !IsSpace(s[j]) by {
      forall j | 0 <= j < m ensures !IsSpace(s[j]) { assert s[..m][j] == s[j]; }
    }
  }

  // ---------------------------------------------------------------------------
  // sep.join(pieces)

  /** `bytes([sep]).join(pieces)`. */
  function Join(pieces: seq<bytes>, sep: byte): bytes
  {
    if |pieces| == 0 then []
    else if |pieces| == 1 then pieces[0]
    else pieces[0] + [sep] + Join(pieces[1..], sep)
  }

  /** Tokens joined with any whitespace byte split back into the same tokens. */
  lemma {:induction false} SplitJoin(tokens: seq<bytes>, w: byte)
    requires IsSpace(w)
    requires forall i :: 0 <= i < |tokens| ==> tokens[i] != [] && NoSpace(tokens[i])
    ensures Split(Join(tokens, w)) == tokens
  {
    if |tokens| == 1 {
      SplitToken(tokens[0]);
    } else if |tokens| > 1 {
      SplitJoin(tokens[1..], w);
      SplitToken(tokens[0]);
      SplitConcat(tokens[0], w, Join(tokens[1..], w));
      assert tokens == [tokens[0]] + tokens[1..];
    }
  }

  // ---------------------------------------------------------------------------
  // bytes.split(sep) : every separator byte cuts; empty pieces are kept

  /** `s.split(bytes([sep]))`. */
  function SplitOn(s: bytes, sep: byte): (r: seq<bytes>)
    ensures |r| == multiset(s)[sep] + 1
    ensures forall i :: 0 <= i < |r| ==> sep !in r[i]
    decreases |s|
  {
    if s == [] then [[]]
    else
      assert s == [s[0]] + s[1..];
      var rest := SplitOn(s[1..], sep);
      if s[0] == sep then [[]] + rest
      else [[s[0]] + rest[0]] + rest[1..]
  }

  /** One step of the split: a separator starts a new piece, any other
      byte joins the first piece. */
  lemma SplitOnCons(x: byte, t: bytes, sep: byte)
    ensures SplitOn([x] + t, sep) ==
            if x == sep then [[]] + SplitOn(t, sep)
            else [[x] + SplitOn(t, sep)[0]] + SplitOn(t, sep)[1..]
  {
  }

  /** A separator between two byte strings splits each of them on its own. */
  lemma {:induction false} SplitOnConcat(a: bytes, sep: byte, b: bytes)
    ensures SplitOn(a + [sep] + b, sep) == SplitOn(a, sep) + SplitOn(b, sep)
    decreases |a|
  {
    if |a| == 0 {
      assert a + [sep] + b == [sep] + b;
      SplitOnCons(sep, b, sep);
    } else {
      var t := a[1..] + [sep] + b;
      assert a + [sep] + b == [a[0]] + t;
      HeadTail(a);
      SplitOnCons(a[0], t, sep);
      SplitOnCons(a[0], a[1..], sep);
      SplitOnConcat(a[1..], sep, b);
      var r1, r2 := SplitOn(a[1..], sep), SplitOn(b, sep);
      if a[0] == sep {
        AppendAssoc([[]], r1, r2);
      } else {
        AppendHeadTail(r1, r2);
        AppendAssoc([[a[0]] + r1[0]], r1[1..], r2);
      }
    }
  }

  /** A piece without the separator is not split. */
  lemma {:induction false} SplitOnFree(a: bytes, sep: byte)
    requires sep !in a
    ensures SplitOn(a, sep) == [a]
    decreases |a|
  {
    if a != [] {
      assert a[0] != sep;
      SplitOnFree(a[1..], sep);
      assert [a[0]] + a[1..] == a;
    }
  }

  /** Round trip one way: joining the pieces again gives back the input. */
  lemma {:induction false} JoinSplitOn(s: bytes, sep: byte)
    ensures Join(SplitOn(s, sep), sep) == s
    decreases |s|
  {
    if s != [] {
      JoinSplitOn(s[1..], sep);
      var rest := SplitOn(s[1..], sep);
      HeadTail(s);
      if s[0] == sep {
        assert ([[]] + rest)[1..] == rest;
      } else {
        var r := [[s[0]] + rest[0]] + rest[1..];
        if |rest| > 1 {
          assert r[1..] == rest[1..];
          AppendAssoc([s[0]], rest[0], [sep] + Join(rest[1..], sep));
          AppendAssoc(rest[0], [sep], Join(rest[1..], sep));
          AppendAssoc([s[0]] + rest[0], [sep], Join(rest[1..], sep));
        }
      }
    }
  }

  /** Round trip the other way: separator-free pieces, empty ones included,
      survive a join followed by a split unchanged. */
  lemma {:induction false} SplitOnJoin(pieces: seq<bytes>, sep: byte)
    requires |pieces| >= 1
    requires forall i :: 0 <= i < |pieces| ==> sep !in pieces[i]
    ensures SplitOn(Join(pieces, sep), sep) == pieces
  {
    if |pieces| == 1 {
      SplitOnFree(pieces[0], sep);
    } else {
      SplitOnJoin(pieces[1..], sep);
      SplitOnFree(pieces[0], sep);
      SplitOnConcat(pieces[0], sep, Join(pieces[1..], sep));
      assert pieces == [pieces[0]] + pieces[1..];
    }
  }

  // ---------------------------------------------------------------------------
  // bytes.strip() : remove leading and trailing whitespace

  function LStrip(s: bytes): (r: bytes)
    ensures |r| <= |s| && r == s[|s| - |r|..]
    ensures AllSpace(s[..|s| - |r|])
    ensures r == [] || !IsSpace(r[0])
    decreases |s|
  {
    if s != [] && IsSpace(s[0]) then LStrip(s[1..]) else s
  }

  function RStrip(s: bytes): (r: bytes)
    ensures |r| <= |s| && r == s[..|r|]
    ensures AllSpace(s[|r|..])
    ensures r == [] || !IsSpace(r[|r| - 1])
    decreases |s|
  {
    if s != [] && IsSpace(s[|s| - 1]) then
      var t := s[..|s| - 1];
      var r := RStrip(t);
      AllSpaceSnoc(t[|r|..], s[|s| - 1]);
      assert s[|r|..] == t[|r|..] + [s[|s| - 1]];
      r
    else s
  }

  lemma AllSpaceSnoc(t: bytes, x: byte)
    requires AllSpace(t) && IsSpace(x)
    ensures AllSpace(t + [x])
  {
  }

  /** `s.strip()`. */
  function Strip(s: bytes): bytes
  {
    RStrip(LStrip(s))
  }

  /** Stripping a whitespace-free byte string changes nothing. */
  lemma StripNoSpace(s: bytes)
    requires NoSpace(s)
    ensures Strip(s) == s
  {
  }

  // ---------------------------------------------------------------------------
  // readlines() : lines keep their terminating newline; the last may lack it

  /** Length of the first line of `s`, newline included. */
  function LineLen(s: bytes): (n: nat)
    requires s != []
    ensures 1 <= n <= |s|
    ensures NEWLINE !in s[..n - 1]
    ensures n < |s| ==> s[n - 1] == NEWLINE
    decreases |s|
  {
    if s[0] == NEWLINE || |s| == 1 then 1
    else
      var m := LineLen(s[1..]);
      assert s[..m] == [s[0]] + s[1..][..m - 1];
      1 + m
  }

  /** `readlines()` applied to a stream whose whole content is `s`. */
  function ReadLines(s: bytes): seq<bytes>
    decreases |s|
  {
    if s == [] then []
    else
      var n := LineLen(s);
      [s[..n]] + ReadLines(s[n..])
  }

  /** Concatenation of a sequence of lines. */
  function Concat(lines: seq<bytes>): bytes
  {
    if |lines| == 0 then [] else lines[0] + Concat(lines[1..])
  }

  /** What `readlines()` promises of each line: no line is empty, every line
      but the last ends with a newline, and no line has a newline elsewhere. */
  predicate WellFormedLines(lines: seq<bytes>)
  {
    forall i :: 0 <= i < |lines| ==>
      && lines[i] != []
      && NEWLINE !in lines[i][..|lines[i]| - 1]
      && (i < |lines| - 1 ==> lines[i][|lines[i]| - 1] == NEWLINE)
  }

  /** The lines `readlines()` returns concatenate back to the stream's
      content. */
  lemma {:induction false} ReadLinesJoin(s: bytes)
    ensures Concat(ReadLines(s)) == s
    decreases |s|
  {
    if s != [] {
      var n := LineLen(s);
      ReadLinesJoin(s[n..]);
      var lines := [s[..n]] + ReadLines(s[n..]);
      AppendHeadTail([s[..n]], ReadLines(s[n..]));
      TakeDrop(s, n);
    }
  }

  /** The lines `readlines()` returns are well formed. */
  lemma {:induction false} ReadLinesWellFormed(s: bytes)
    ensures WellFormedLines(ReadLines(s))
    decreases |s|
  {
    if s != [] {
      var n := LineLen(s);
      ReadLinesWellFormed(s[n..]);
      var rest := ReadLines(s[n..]);
      var lines := [s[..n]] + rest;
      assert s[..n][..n - 1] == s[..n - 1];
      if n < |s| {
        assert rest != [] by { assert s[n..] != []; }
      }
      forall i | 1 <= i < |lines|
        ensures lines[i] != [] && NEWLINE !in lines[i][..|lines[i]| - 1]
        ensures i < |lines| - 1 ==> lines[i][|lines[i]| - 1] == NEWLINE
      {
        assert lines[i] == rest[i - 1];
      }
    }
  }

  /** The lines `readlines()` returns are well formed and concatenate back
      to the stream's content. */
  lemma ReadLinesSpec(s: bytes)
    ensures WellFormedLines(ReadLines(s))
    ensures Concat(ReadLines(s)) == s
  {
    ReadLinesJoin(s);
    ReadLinesWellFormed(s);
  }

  /** And conversely: well-formed lines are exactly what `readlines()`
      recovers from their concatenation. */
  lemma {:induction false} ReadLinesConcat(lines: seq<bytes>)
    requires WellFormedLines(lines)
    ensures ReadLines(Concat(lines)) == lines
  {
    if lines != [] {
      var s := Concat(lines);
      var l := lines[0];
      var rest := lines[1..];
      assert WellFormedLines(rest) by {
        forall i | 0 <= i < |rest|
          ensures rest[i] != [] && NEWLINE !in rest[i][..|rest[i]| - 1]
          ensures i < |rest| - 1 ==> rest[i][|rest[i]| - 1] == NEWLINE
        {
          assert rest[i] == lines[i + 1];
        }
      }
      ReadLinesConcat(rest);
      assert s == l + Concat(rest);
      AppendSlices(l, Concat(rest));
      assert l[..|l| - 1] == s[..|l| - 1];
      if |l| < |s| {
        assert rest != [];
        assert s[|l| - 1] == l[|l| - 1];
      }
      LineLenUnique(s, |l|);
    }
  }

  /** The first line's length is determined by where the first newline is. */
  lemma LineLenUnique(s: bytes, n: nat)
    requires 1 <= n <= |s|
    requires NEWLINE !in s[..n - 1]
    requires n < |s| ==> s[n - 1] == NEWLINE
    ensures LineLen(s) == n
  {
  }
}
