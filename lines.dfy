/**
  Python's `str.split(sep)` and `sep.join(parts)` for a one-character
  separator, the `[:-1]` slice applied to a split, and the text that
  writing a list of newline-terminated rows produces.
 */
module Lines {

  /** Number of occurrences of `c` in `s` (Python's `s.count(c)`). */
  function Count(s: string, c: char): (n: nat)
    ensures n <= |s|
    ensures n == 0 <==> c !in s
    decreases |s|
  {
    if s == [] then 0 else (if s[0] == c then 1 else 0) + Count(s[1..], c)
  }

  /**
    `s.split(sep)`: the pieces of `s` between the occurrences of `sep`.
    There is always one piece more than there are separators; the split of
    the empty string is `[""]`.
   */
  function Split(s: string, sep: char): (parts: seq<string>)
    ensures |parts| == Count(s, sep) + 1
    ensures forall i :: 0 <= i < |parts| ==> sep !in parts[i]
    decreases |s|
  {
    if s == [] then [[]]
    else
      var rest := Split(s[1..], sep);
      if s[0] == sep then [[]] + rest
      else [[s[0]] + rest[0]] + rest[1..]
  }

  /** `sep.join(parts)`: the pieces with one separator between neighbours. */
  function Join(parts: seq<string>, sep: char): string
    decreases |parts|
  {
    if |parts| == 0 then []
    else if |parts| == 1 then parts[0]
    else parts[0] + [sep] + Join(parts[1..], sep)
  }

  /** The last piece of `s.split(sep)`: the text after the last separator. */
  function LastPiece(s: string, sep: char): (piece: string)
    ensures sep !in piece
  {
    var parts := Split(s, sep);
    parts[|parts| - 1]
  }

  /**
    `s.split(sep)[:-1]`: every piece of the split except the last one,
    dropped by position whatever it holds.
   */
  function SplitDropLast(s: string, sep: char): (rows: seq<string>)
    ensures |rows| == Count(s, sep)
    ensures forall i :: 0 <= i < |rows| ==> sep !in rows[i]
  {
    var parts := Split(s, sep);
    parts[..|parts| - 1]
  }

  /** Every row followed by `sep`, concatenated. */
  function Terminate(rows: seq<string>, sep: char): string
    decreases |rows|
  {
    if rows == [] then [] else rows[0] + [sep] + Terminate(rows[1..], sep)
  }

  /** True when `s` is empty or its last character is `sep`. */
  predicate EndsWithOrEmpty(s: string, sep: char)
  {
    s == [] || s[|s| - 1] == sep
  }

  /** The occurrences in a concatenation are those of its two parts. */
  lemma {:induction false} CountAppend(a: string, b: string, c: char)
    ensures Count(a + b, c) == Count(a, c) + Count(b, c)
    decreases |a|
  {
    if a == [] {
      assert a + b == b;
    } else {
      assert (a + b)[0] == a[0];
      assert (a + b)[1..] == a[1..] + b;
      CountAppend(a[1..], b, c);
    }
  }

  /** A string without the separator splits into itself alone. */
  lemma {:induction false} SplitNoSep(s: string, sep: char)
    requires sep !in s
    ensures Split(s, sep) == [s]
    decreases |s|
  {
    if s != [] {
      SplitNoSep(s[1..], sep);
      assert [s[0]] + s[1..] == s;
    }
  }

  /** Splitting at the first separator: the text before it is the first piece. */
  lemma {:induction false} SplitCons(p: string, sep: char, rest: string)
    requires sep !in p
    ensures Split(p + [sep] + rest, sep) == [p] + Split(rest, sep)
    decreases |p|
  {
    var s := p + [sep] + rest;
    if p == [] {
      assert s[1..] == rest;
    } else {
      assert s[1..] == p[1..] + [sep] + rest;
      SplitCons(p[1..], sep, rest);
      assert [p[0]] + p[1..] == p;
    }
  }

  /** A join of several pieces is the first piece, a separator, and the join of the rest. */
  lemma JoinCons(first: string, rest: seq<string>, sep: char)
    requires rest != []
    ensures Join([first] + rest, sep) == first + [sep] + Join(rest, sep)
  {
  }

  /** Joining the pieces of a split gives the original text back. */
  lemma {:induction false} JoinSplit(s: string, sep: char)
    ensures Join(Split(s, sep), sep) == s
    decreases |s|
  {
    if s != [] {
      JoinSplit(s[1..], sep);
      JoinSplitStep(s, sep);
    }
  }

  /** The inductive step of JoinSplit: prepending one character to a text whose split joins back. */
  lemma JoinSplitStep(s: string, sep: char)
    requires s != []
    requires Join(Split(s[1..], sep), sep) == s[1..]
    ensures Join(Split(s, sep), sep) == s
  {
    var rest := Split(s[1..], sep);
    assert [s[0]] + s[1..] == s;
    if s[0] == sep {
      assert Split(s, sep) == [[]] + rest;
      JoinCons([], rest, sep);
    } else {
      assert Split(s, sep) == [[s[0]] + rest[0]] + rest[1..];
      JoinGrowFirst(s[0], rest, sep);
    }
  }

  /** Putting a character in front of the first piece puts it in front of the join. */
  lemma JoinGrowFirst(c: char, parts: seq<string>, sep: char)
    requires parts != []
    ensures Join([[c] + parts[0]] + parts[1..], sep) == [c] + Join(parts, sep)
  {
    if |parts| > 1 {
      JoinCons([c] + parts[0], parts[1..], sep);
      JoinCons(parts[0], parts[1..], sep);
      assert [parts[0]] + parts[1..] == parts;
    }
  }

  /** Splitting a join of separator-free pieces gives the pieces back. */
  lemma {:induction false} SplitJoin(parts: seq<string>, sep: char)
    requires |parts| >= 1
    requires forall i :: 0 <= i < |parts| ==> sep !in parts[i]
    ensures Split(Join(parts, sep), sep) == parts
    decreases |parts|
  {
    if |parts| == 1 {
      SplitNoSep(parts[0], sep);
    } else {
      SplitJoin(parts[1..], sep);
      SplitCons(parts[0], sep, Join(parts[1..], sep));
      assert [parts[0]] + parts[1..] == parts;
    }
  }

  /** A join is every piece but the last, each terminated, followed by the last. */
  lemma {:induction false} JoinIsTerminatePlusLast(parts: seq<string>, sep: char)
    requires |parts| >= 1
    ensures Join(parts, sep) == Terminate(parts[..|parts| - 1], sep) + parts[|parts| - 1]
    decreases |parts|
  {
    if |parts| > 1 {
      JoinIsTerminatePlusLast(parts[1..], sep);
      assert parts[..|parts| - 1][1..] == parts[1..][..|parts| - 2];
    }
  }

  /** Splitting separator-terminated rows gives the rows and one empty last piece. */
  lemma {:induction false} SplitTerminate(rows: seq<string>, sep: char)
    requires forall i :: 0 <= i < |rows| ==> sep !in rows[i]
    ensures Split(Terminate(rows, sep), sep) == rows + [[]]
    decreases |rows|
  {
    if rows != [] {
      SplitTerminate(rows[1..], sep);
      SplitCons(rows[0], sep, Terminate(rows[1..], sep));
      assert [rows[0]] + (rows[1..] + [[]]) == rows + [[]];
    }
  }

  /** The kept rows, each terminated, followed by the dropped piece, are the text. */
  lemma SplitDropLastReassembles(s: string, sep: char)
    ensures Terminate(SplitDropLast(s, sep), sep) + LastPiece(s, sep) == s
  {
    JoinSplit(s, sep);
    JoinIsTerminatePlusLast(Split(s, sep), sep);
  }

  /** The dropped piece is empty exactly when the text is empty or ends in the separator. */
  lemma {:induction false} LastPieceEmpty(s: string, sep: char)
    ensures LastPiece(s, sep) == [] <==> EndsWithOrEmpty(s, sep)
    decreases |s|
  {
    if s != [] {
      var rest := Split(s[1..], sep);
      LastPieceEmpty(s[1..], sep);
      if s[0] != sep && |rest| == 1 {
        assert sep !in s[1..];
        assert s[1..] != [] ==> s[|s| - 1] == s[1..][|s| - 2];
      } else if s[0] != sep {
        assert s[1..] != [];
      }
      assert s[1..] != [] ==> s[|s| - 1] == s[1..][|s| - 2];
    }
  }

  /** Round trip: text ending in the separator is kept in full by `split(sep)[:-1]`. */
  lemma SplitDropLastRoundTrip(s: string, sep: char)
    requires EndsWithOrEmpty(s, sep)
    ensures Terminate(SplitDropLast(s, sep), sep) == s
  {
    SplitDropLastReassembles(s, sep);
    LastPieceEmpty(s, sep);
  }

  /**
    Text that does not end in the separator loses its final line: the kept
    rows reassemble to a proper prefix of it, and what is lost is exactly
    the non-empty text after the last separator.
   */
  lemma SplitDropLastLosesFinalLine(s: string, sep: char)
    requires !EndsWithOrEmpty(s, sep)
    ensures LastPiece(s, sep) != []
    ensures |Terminate(SplitDropLast(s, sep), sep)| < |s|
    ensures s == Terminate(SplitDropLast(s, sep), sep) + LastPiece(s, sep)
  {
    SplitDropLastReassembles(s, sep);
    LastPieceEmpty(s, sep);
  }

  /** `split(sep)[:-1]` undoes the termination of separator-free rows. */
  lemma SplitDropLastTerminate(rows: seq<string>, sep: char)
    requires forall i :: 0 <= i < |rows| ==> sep !in rows[i]
    ensures SplitDropLast(Terminate(rows, sep), sep) == rows
  {
    SplitTerminate(rows, sep);
  }

  /** A character absent from a text is absent from every part of it. */
  lemma NotInInfix(c: char, before: string, middle: string, after: string)
    requires c !in before + middle + after
    ensures c !in middle
  {
  }

  /** Positions in a sequence with one element in front and one behind. */
  lemma Framed<T>(first: T, middle: seq<T>, last: T)
    ensures |[first] + middle + [last]| == |middle| + 2
    ensures ([first] + middle + [last])[0] == first
    ensures ([first] + middle + [last])[|middle| + 1] == last
    ensures ([first] + middle + [last])[1..|middle| + 1] == middle
    ensures forall i :: 1 <= i <= |middle| ==> ([first] + middle + [last])[i] == middle[i - 1]
  {
  }
}
