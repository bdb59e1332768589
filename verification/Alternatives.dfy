/** Lists of source ids as one string with `|` between them. */
module Alternatives {

  /** The pieces between the bars; the empty string is one empty piece. */
  function Split(s: string): (r: seq<string>)
    ensures r != []
    ensures forall i :: 0 <= i < |r| ==> '|' !in r[i]
  {
    if s == "" then [""] else
    var rest := Split(s[1..]);
    if s[0] == '|' then [""] + rest else [[s[0]] + rest[0]] + rest[1..]
  }

  function Join(xs: seq<string>): string {
    if xs == [] then "" else
    if |xs| == 1 then xs[0] else xs[0] + "|" + Join(xs[1..])
  }

  ghost predicate BarFree(xs: seq<string>) {
    forall i :: 0 <= i < |xs| ==> '|' !in xs[i]
  }

  lemma {:induction false} JoinSplit(s: string)
    ensures Join(Split(s)) == s
  {
    if s != "" {
      var rest := Split(s[1..]);
      JoinSplit(s[1..]);
      if s[0] == '|' {
        assert ([""] + rest)[1..] == rest;
        assert s == "" + "|" + s[1..];
      } else {
        JoinPrefix([s[0]], rest);
        assert s == [s[0]] + s[1..];
      }
    }
  }

  lemma JoinPrefix(p: string, xs: seq<string>)
    requires xs != []
    ensures Join([p + xs[0]] + xs[1..]) == p + Join(xs)
  {
    var ys := [p + xs[0]] + xs[1..];
    assert ys[0] == p + xs[0] && ys[1..] == xs[1..];
    hide Split;
    if |xs| > 1 {
      var rest := Join(xs[1..]);
      assert Join(ys) == ys[0] + "|" + rest && Join(xs) == xs[0] + "|" + rest;
      hide Join;
      Associate(p, xs[0], rest);
    }
  }

  lemma Associate(p: string, x: string, rest: string)
    ensures p + x + "|" + rest == p + (x + "|" + rest)
  {
  }

  lemma {:induction false} SplitJoin(xs: seq<string>)
    requires xs != [] && BarFree(xs)
    ensures Split(Join(xs)) == xs
  {
    if |xs| == 1 {
      SplitPiece(xs[0]);
      assert xs == [xs[0]];
    } else {
      SplitJoin(xs[1..]);
      SplitFirst(xs[0], Join(xs[1..]));
      assert xs == [xs[0]] + xs[1..];
    }
  }

  lemma {:induction false} SplitPiece(s: string)
    requires '|' !in s
    ensures Split(s) == [s]
  {
    if s != "" {
      assert s[0] in s;
      SplitPiece(s[1..]);
      assert s == [s[0]] + s[1..];
    }
  }

  lemma {:induction false} SplitFirst(x: string, rest: string)
    requires '|' !in x
    ensures Split(x + "|" + rest) == [x] + Split(rest)
  {
    var s := x + "|" + rest;
    if x == "" {
      assert s[1..] == rest;
    } else {
      assert x[0] in x;
      SplitFirst(x[1..], rest);
      assert s[1..] == x[1..] + "|" + rest;
      assert x == [x[0]] + x[1..];
    }
  }

  /** Reading a joined list back gives the list exactly when it is one bar-free string or more. */
  lemma RoundTripIff(xs: seq<string>)
    ensures Split(Join(xs)) == xs <==> xs != [] && BarFree(xs)
  {
    if xs != [] && BarFree(xs) { SplitJoin(xs); }
  }

  lemma {:induction false} SplitConcat(x: string, rest: string)
    ensures Split(x + "|" + rest) == Split(x) + Split(rest)
  {
    var s := x + "|" + rest;
    if x == "" {
      assert s[1..] == rest;
    } else {
      SplitConcat(x[1..], rest);
      assert s[0] == x[0] && s[1..] == x[1..] + "|" + rest;
      PrependToFirst(x[0], Split(x[1..]), Split(rest));
    }
  }

  lemma PrependToFirst(c: char, a: seq<string>, b: seq<string>)
    requires a != []
    ensures [[c] + (a + b)[0]] + (a + b)[1..] == ([[c] + a[0]] + a[1..]) + b
    ensures [""] + (a + b) == ([""] + a) + b
  {
  }

  /** Whatever the ids, the pieces of their joined list are the pieces of each of them. */
  lemma {:induction false} PieceOfJoin(xs: seq<string>, p: string)
    requires xs != []
    ensures p in Split(Join(xs)) <==> exists i :: 0 <= i < |xs| && p in Split(xs[i])
  {
    if |xs| > 1 {
      SplitConcat(xs[0], Join(xs[1..]));
      PieceOfJoin(xs[1..], p);
      if i :| 0 <= i < |xs| && p in Split(xs[i]) {
        if i > 0 { assert xs[1..][i - 1] == xs[i]; }
      }
    }
  }
}
