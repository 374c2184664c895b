/** The two java.lang.String operations the calculator relies on:
    `split` with a one-character separator and `trim`. */
module Text {

  /** Position of the first occurrence of c in s. */
  function IndexOf(s: string, c: char): (k: nat)
    requires c in s
    ensures k < |s| && s[k] == c
  {
    if s[0] == c then 0 else 1 + IndexOf(s[1..], c)
  }

  /** The pieces of s between occurrences of sep, empty pieces included. */
  function Pieces(s: string, sep: char): (r: seq<string>)
    ensures |r| >= 1
    decreases |s|
  {
    if sep !in s then [s]
    else
      var k := IndexOf(s, sep);
      [s[..k]] + Pieces(s[k + 1..], sep)
  }

  /** Puts the separators back between the pieces. */
  function Join(ps: seq<string>, sep: char): string
    requires |ps| >= 1
  {
    if |ps| == 1 then ps[0] else ps[0] + [sep] + Join(ps[1..], sep)
  }

  /** Java's split with limit 0 discards the trailing empty strings. */
  function DropTrailingEmpty(ps: seq<string>): (r: seq<string>)
    ensures |r| <= |ps|
  {
    if ps == [] then []
    else if ps[|ps| - 1] == [] then DropTrailingEmpty(ps[..|ps| - 1])
    else ps
  }

  /** `s.split(sep)`: when sep does not occur the result is [s] (even for the
      empty string); otherwise it is the pieces without the trailing empties. */
  function Split(s: string, sep: char): seq<string> {
    if sep !in s then [s] else DropTrailingEmpty(Pieces(s, sep))
  }

  /** Java's trim removes every leading and trailing char up to U+0020. */
  predicate IsTrimmed(c: char) {
    c <= ' '
  }

  function TrimStart(s: string): (r: string)
    ensures |r| <= |s|
  {
    if |s| > 0 && IsTrimmed(s[0]) then TrimStart(s[1..]) else s
  }

  function TrimEnd(s: string): (r: string)
    ensures |r| <= |s|
  {
    if |s| > 0 && IsTrimmed(s[|s| - 1]) then TrimEnd(s[..|s| - 1]) else s
  }

  /** `s.trim()`. */
  function Trim(s: string): (r: string)
    ensures |r| <= |s|
  {
    TrimEnd(TrimStart(s))
  }

  // ---------------------------------------------------------------------
  // Properties of these operations

  /** No occurrence of c comes before the one IndexOf finds. */
  lemma {:induction false} IndexOfFirst(s: string, c: char)
    requires c in s
    ensures c !in s[..IndexOf(s, c)]
    decreases |s|
  {
    if s[0] != c {
      IndexOfFirst(s[1..], c);
      var k := IndexOf(s, c);
      assert s[..k] == [s[0]] + s[1..][..k - 1];
    }
  }

  /** An occurrence of c with none before it is the one IndexOf finds. */
  lemma {:induction false} IndexOfAt(s: string, c: char, k: nat)
    requires k < |s| && s[k] == c && c !in s[..k]
    ensures c in s && IndexOf(s, c) == k
    decreases k
  {
    assert s[k] in s;
    if k > 0 {
      assert s[0] == s[..k][0];
      assert s[1..][..k - 1] == s[..k][1..];
      assert s[1..][k - 1] == c;
      IndexOfAt(s[1..], c, k - 1);
    }
  }

  /** No piece holds the separator. */
  lemma {:induction false} PiecesSeparatorFree(s: string, sep: char)
    ensures forall p :: p in Pieces(s, sep) ==> sep !in p
    decreases |s|
  {
    if sep in s {
      IndexOfFirst(s, sep);
      PiecesSeparatorFree(s[IndexOf(s, sep) + 1..], sep);
    }
  }

  /** Dropping the trailing empties keeps a prefix that does not end in an
      empty piece, and everything dropped is empty. */
  lemma {:induction false} DropTrailingEmptyShape(ps: seq<string>)
    ensures var r := DropTrailingEmpty(ps);
      && r == ps[..|r|]
      && (r == [] || r[|r| - 1] != [])
      && forall i :: |r| <= i < |ps| ==> ps[i] == []
    decreases |ps|
  {
    if ps != [] && ps[|ps| - 1] == [] {
      var q := ps[..|ps| - 1];
      DropTrailingEmptyShape(q);
      var r := DropTrailingEmpty(q);
      assert q[..|r|] == ps[..|r|];
      forall i | |r| <= i < |ps| ensures ps[i] == [] {
        if i < |ps| - 1 { assert ps[i] == q[i]; }
      }
    } else {
      assert ps[..|ps|] == ps;
    }
  }

  /** TrimStart removes exactly the leading chars at or below U+0020. */
  lemma {:induction false} TrimStartShape(s: string)
    ensures var r := TrimStart(s);
      && r == s[|s| - |r|..]
      && (r == [] || !IsTrimmed(r[0]))
      && forall i :: 0 <= i < |s| - |r| ==> IsTrimmed(s[i])
    decreases |s|
  {
    if |s| > 0 && IsTrimmed(s[0]) {
      TrimStartShape(s[1..]);
      var r := TrimStart(s[1..]);
      assert s[1..][|s| - 1 - |r|..] == s[|s| - |r|..];
      forall i | 0 <= i < |s| - |r| ensures IsTrimmed(s[i]) {
        if i > 0 { assert s[i] == s[1..][i - 1]; }
      }
    } else {
      assert s[0..] == s;
    }
  }

  /** TrimEnd removes exactly the trailing chars at or below U+0020. */
  lemma {:induction false} TrimEndShape(s: string)
    ensures var r := TrimEnd(s);
      && r == s[..|r|]
      && (r == [] || !IsTrimmed(r[|r| - 1]))
      && forall i :: |r| <= i < |s| ==> IsTrimmed(s[i])
    decreases |s|
  {
    if |s| > 0 && IsTrimmed(s[|s| - 1]) {
      var q := s[..|s| - 1];
      TrimEndShape(q);
      var r := TrimEnd(q);
      assert q[..|r|] == s[..|r|];
      forall i | |r| <= i < |s| ensures IsTrimmed(s[i]) {
        if i < |s| - 1 { assert s[i] == q[i]; }
      }
    } else {
      assert s[..|s|] == s;
    }
  }

  /** A trimmed string is empty, or begins and ends with a char above U+0020. */
  lemma TrimShape(s: string)
    ensures var r := Trim(s);
      r == [] || (!IsTrimmed(r[0]) && !IsTrimmed(r[|r| - 1]))
  {
    var t := TrimStart(s);
    TrimStartShape(s);
    TrimEndShape(t);
    var r := TrimEnd(t);
    if r != [] {
      assert r[0] == t[0];
    }
  }

  /** Trim keeps one slice s[i..j] of s and removes exactly the chars outside
      it, all of which are at or below U+0020. */
  lemma TrimSlice(s: string)
    ensures var i := |s| - |TrimStart(s)|;
      var j := i + |Trim(s)|;
      && 0 <= i <= j <= |s|
      && Trim(s) == s[i..j]
      && (forall k :: 0 <= k < i ==> IsTrimmed(s[k]))
      && (forall k :: j <= k < |s| ==> IsTrimmed(s[k]))
  {
    var t := TrimStart(s);
    TrimStartShape(s);
    TrimEndShape(t);
    var i := |s| - |t|;
    var j := i + |Trim(s)|;
    assert Trim(s) == t[..j - i];
    forall k | j <= k < |s| ensures IsTrimmed(s[k]) {
      assert s[k] == t[k - i];
    }
  }

  /** Joining the pieces again gives back the original string. */
  lemma {:induction false} PiecesJoin(s: string, sep: char)
    ensures Join(Pieces(s, sep), sep) == s
    decreases |s|
  {
    if sep in s {
      var k := IndexOf(s, sep);
      PiecesJoin(s[k + 1..], sep);
      assert s == s[..k] + [sep] + s[k + 1..];
    }
  }

  /** A char that does not occur in s does not occur in a slice of it. */
  lemma SliceWithout(s: string, c: char, i: nat, j: nat)
    requires c !in s && i <= j <= |s|
    ensures c !in s[i..j]
  {
    assert forall x :: x in s[i..j] ==> x in s;
  }

  /** A char that does not occur in s occurs in none of its pieces. */
  lemma {:induction false} PiecesWithout(s: string, sep: char, c: char)
    requires c !in s
    ensures forall p :: p in Pieces(s, sep) ==> c !in p
    decreases |s|
  {
    if sep in s {
      var k := IndexOf(s, sep);
      var rest := s[k + 1..];
      SliceWithout(s, c, 0, k);
      SliceWithout(s, c, k + 1, |s|);
      PiecesWithout(rest, sep, c);
      var ps := Pieces(rest, sep);
      assert Pieces(s, sep) == [s[..k]] + ps;
      forall p | p in [s[..k]] + ps ensures c !in p {
        if p != s[..k] { assert p in ps; }
      }
    }
  }

  /** Every token of a split lacks every char the string lacks. */
  lemma SplitWithout(s: string, sep: char, c: char)
    requires c !in s
    ensures forall p :: p in Split(s, sep) ==> c !in p
  {
    if sep in s {
      PiecesWithout(s, sep, c);
      var ps := Pieces(s, sep);
      var r := DropTrailingEmpty(ps);
      DropTrailingEmptyShape(ps);
      assert forall p :: p in r ==> p in ps;
    }
  }

  /** Joining separator-free pieces and cutting them apart again gives them back. */
  lemma {:induction false} JoinPieces(ps: seq<string>, sep: char)
    requires |ps| >= 1 && forall i :: 0 <= i < |ps| ==> sep !in ps[i]
    ensures Pieces(Join(ps, sep), sep) == ps
    decreases |ps|
  {
    if |ps| > 1 {
      var s := Join(ps, sep);
      var a := ps[0];
      assert s == a + [sep] + Join(ps[1..], sep);
      assert s[|a|] == sep && s[..|a|] == a;
      IndexOfAt(s, sep, |a|);
      assert s[|a| + 1..] == Join(ps[1..], sep);
      JoinPieces(ps[1..], sep);
      assert ps == [a] + ps[1..];
    }
  }

  /** `split` undoes a join of separator-free tokens whose last one is not empty. */
  lemma SplitJoin(ps: seq<string>, sep: char)
    requires |ps| >= 1 && forall i :: 0 <= i < |ps| ==> sep !in ps[i]
    requires ps[|ps| - 1] != []
    ensures Split(Join(ps, sep), sep) == ps
  {
    JoinPieces(ps, sep);
    SplitAllPieces(Join(ps, sep), sep);
  }

  /** When the last piece is not empty, `split` keeps every piece. */
  lemma SplitAllPieces(s: string, sep: char)
    requires var ps := Pieces(s, sep); ps[|ps| - 1] != []
    ensures Split(s, sep) == Pieces(s, sep)
  {
    var ps := Pieces(s, sep);
    DropTrailingEmptyAt(ps, |ps|);
    assert ps[..|ps|] == ps;
  }

  /** A separator-free piece in front of a separator is the first piece. */
  lemma PiecesCons(a: string, rest: string, sep: char)
    requires sep !in a
    ensures Pieces(a + [sep] + rest, sep) == [a] + Pieces(rest, sep)
  {
    var s := a + [sep] + rest;
    assert s[|a|] == sep && s[..|a|] == a;
    IndexOfAt(s, sep, |a|);
    assert s[|a| + 1..] == rest;
  }

  /** Dropping trailing empties stops at the last nonempty piece. */
  lemma {:induction false} DropTrailingEmptyAt(ps: seq<string>, n: nat)
    requires n <= |ps| && (n == 0 || ps[n - 1] != [])
    requires forall i :: n <= i < |ps| ==> ps[i] == []
    ensures DropTrailingEmpty(ps) == ps[..n]
    decreases |ps|
  {
    if |ps| > n {
      DropTrailingEmptyAt(ps[..|ps| - 1], n);
      assert ps[..|ps| - 1][..n] == ps[..n];
    } else {
      assert ps[..n] == ps;
    }
  }

  /** Splitting two separator-free parts joined by one separator. */
  lemma SplitTwo(a: string, b: string, sep: char)
    requires sep !in a && sep !in b && b != []
    ensures Split(a + [sep] + b, sep) == [a, b]
  {
    var s := a + [sep] + b;
    assert s[|a|] == sep;
    assert s[..|a|] == a;
    IndexOfAt(s, sep, |a|);
    var k := IndexOf(s, sep);
    assert s[..k] == a && s[k + 1..] == b;
    assert Pieces(s, sep) == [a] + Pieces(b, sep) == [a, b];
  }

  /** Every piece is empty. */
  predicate AllEmpty(ps: seq<string>) {
    forall i :: 0 <= i < |ps| ==> ps[i] == []
  }

  /** Every char of s is the separator. */
  predicate OnlySeparators(s: string, sep: char) {
    forall i :: 0 <= i < |s| ==> s[i] == sep
  }

  /** All pieces are empty exactly when the string is only separators. */
  lemma {:induction false} PiecesAllEmpty(s: string, sep: char)
    ensures AllEmpty(Pieces(s, sep)) <==> OnlySeparators(s, sep)
    decreases |s|
  {
    var ps := Pieces(s, sep);
    if sep in s {
      var k := IndexOf(s, sep);
      var rest := s[k + 1..];
      PiecesAllEmpty(rest, sep);
      assert ps == [s[..k]] + Pieces(rest, sep);
      AllEmptyCons(s[..k], Pieces(rest, sep));
      AllSeparatorsAt(s, sep, k, rest);
    } else {
      assert ps == [s];
      if |s| > 0 {
        assert s[0] in s;
        assert !OnlySeparators(s, sep) by { assert s[0] != sep; }
        assert !AllEmpty(ps) by { assert ps[0] == s; }
      } else {
        assert s == [];
      }
    }
  }

  /** Every piece of [a] + q is empty exactly when a and every piece of q are. */
  lemma AllEmptyCons(a: string, q: seq<string>)
    ensures AllEmpty([a] + q) <==> a == [] && AllEmpty(q)
  {
    if AllEmpty([a] + q) {
      assert ([a] + q)[0] == a;
      forall i | 0 <= i < |q| ensures q[i] == [] {
        assert ([a] + q)[i + 1] == q[i];
      }
    }
  }

  /** With the first separator at k, s is only separators exactly when k is 0
      and everything after it is only separators. */
  lemma AllSeparatorsAt(s: string, sep: char, k: nat, rest: string)
    requires sep in s && k == IndexOf(s, sep) && rest == s[k + 1..]
    ensures OnlySeparators(s, sep) <==> k == 0 && OnlySeparators(rest, sep)
  {
    if OnlySeparators(s, sep) {
      forall i | 0 <= i < |rest| ensures rest[i] == sep {
        assert rest[i] == s[k + 1 + i];
      }
    }
    if k == 0 && OnlySeparators(rest, sep) {
      forall i | 0 <= i < |s| ensures s[i] == sep {
        if i > 0 { assert s[i] == rest[i - 1]; }
      }
    }
  }

  /** `split` yields no tokens exactly when s is a non-empty run of separators. */
  lemma SplitEmpty(s: string, sep: char)
    ensures Split(s, sep) == [] <==> |s| > 0 && forall i :: 0 <= i < |s| ==> s[i] == sep
  {
    PiecesAllEmpty(s, sep);
    DropTrailingEmptyShape(Pieces(s, sep));
    if |s| > 0 && forall i :: 0 <= i < |s| ==> s[i] == sep {
      assert s[0] == sep;
    }
  }

  /** The first token of a split that does not begin with sep is the text before the first sep. */
  lemma SplitFirst(s: string, sep: char)
    requires |s| > 0 && s[0] != sep
    ensures |Split(s, sep)| >= 1 && Split(s, sep)[0] != []
    ensures sep in s ==> Split(s, sep)[0] == s[..IndexOf(s, sep)]
    ensures sep !in s ==> Split(s, sep)[0] == s
  {
    if sep in s {
      var ps := Pieces(s, sep);
      DropTrailingEmptyShape(ps);
      var k := IndexOf(s, sep);
      assert k > 0;
      assert ps[0] == s[..k] != [];
    }
  }

  /** Trimming a string that has nothing to trim changes nothing. */
  lemma TrimUntrimmed(s: string)
    requires s == [] || (!IsTrimmed(s[0]) && !IsTrimmed(s[|s| - 1]))
    ensures Trim(s) == s
  {
  }

  /** Trimming twice is trimming once. */
  lemma TrimIdempotent(s: string)
    ensures Trim(Trim(s)) == Trim(s)
  {
    TrimShape(s);
    TrimUntrimmed(Trim(s));
  }
}
