/** The token merger: adjacent tokens of the same type are collapsed into
    one token carrying the concatenation of their texts. */
module Merge {
  import opened Tokens

  /** Put token `x` in front of the already merged `r`: it joins the first
      run of `r` when that run has its type, and opens a run of its own
      otherwise. */
  function Prepend<T(==)>(x: Token<T>, r: seq<Token<T>>): (merged: seq<Token<T>>)
  {
    if r != [] && r[0].ttype == x.ttype then [Token(x.ttype, x.value + r[0].value)] + r[1..]
    else [x] + r
  }

  /** Run-merging, defined from the right: merge the tail, then put the
      head in front of it. */
  function Merged<T(==)>(xs: seq<Token<T>>): (r: seq<Token<T>>)
    ensures |r| <= |xs|
    ensures r == [] <==> xs == []
    ensures xs != [] ==> r[0].ttype == xs[0].ttype
  {
    if xs == [] then [] else Prepend(xs[0], Merged(xs[1..]))
  }

  /** One unfolding of `Merged`. */
  lemma MergedCons<T>(x: Token<T>, ys: seq<Token<T>>)
    ensures Merged([x] + ys) == Prepend(x, Merged(ys))
  {
    assert ([x] + ys)[1..] == ys;
  }

  lemma TextsPrepend<T>(x: Token<T>, r: seq<Token<T>>)
    ensures Texts(Prepend(x, r)) == x.value + Texts(r)
  {
    if r != [] && r[0].ttype == x.ttype {
      var head := Token(x.ttype, x.value + r[0].value);
      assert ([head] + r[1..])[1..] == r[1..];
    } else {
      assert ([x] + r)[1..] == r;
    }
  }

  /** Merging loses no text: the merged texts, concatenated, are the input
      texts, concatenated. */
  lemma {:induction false} MergedLossless<T>(xs: seq<Token<T>>)
    ensures Texts(Merged(xs)) == Texts(xs)
  {
    if xs != [] {
      MergedLossless(xs[1..]);
      TextsPrepend(xs[0], Merged(xs[1..]));
    }
  }

  /** Merged runs are maximal: no two adjacent output tokens share a type. */
  lemma {:induction false} MergedMaximal<T>(xs: seq<Token<T>>)
    ensures Maximal(Merged(xs))
  {
    if xs != [] {
      MergedMaximal(xs[1..]);
    }
  }

  lemma TypesPrepend<T>(x: Token<T>, r: seq<Token<T>>)
    ensures Types(Prepend(x, r)) ==
      if r != [] && r[0].ttype == x.ttype then Types(r) else [x.ttype] + Types(r)
  {
  }

  /** The output's type sequence is the input's with consecutive duplicates
      removed. */
  lemma {:induction false} MergedTypes<T>(xs: seq<Token<T>>)
    ensures Types(Merged(xs)) == Dedup(Types(xs))
  {
    if xs != [] {
      var m := Merged(xs[1..]);
      MergedTypes(xs[1..]);
      TypesPrepend(xs[0], m);
      assert Types(xs) == [xs[0].ttype] + Types(xs[1..]);
    }
  }

  /** A sequence that is already maximal is left unchanged. */
  lemma {:induction false} MergedOfMaximal<T>(xs: seq<Token<T>>)
    requires Maximal(xs)
    ensures Merged(xs) == xs
  {
    if xs != [] {
      MergedOfMaximal(xs[1..]);
      assert xs == [xs[0]] + xs[1..];
    }
  }

  /** Merging twice gives the same result as merging once. */
  lemma MergedIdempotent<T>(xs: seq<Token<T>>)
    ensures Merged(Merged(xs)) == Merged(xs)
  {
    MergedMaximal(xs);
    MergedOfMaximal(Merged(xs));
  }

  /** A run of tokens of one type merges into a single token holding the
      whole run's text. */
  lemma {:induction false} MergedRun<T>(t: T, xs: seq<Token<T>>)
    requires xs != []
    requires forall i :: 0 <= i < |xs| ==> xs[i].ttype == t
    ensures Merged(xs) == [Token(t, Texts(xs))]
  {
    if |xs| == 1 {
      assert xs[1..] == [];
      assert Texts(xs) == xs[0].value;
      assert xs == [Token(t, xs[0].value)];
    } else {
      MergedRun(t, xs[1..]);
    }
  }

  lemma PrependAppend<T>(x: Token<T>, tail: seq<Token<T>>, right: seq<Token<T>>)
    requires tail != []
    ensures Prepend(x, tail + right) == Prepend(x, tail) + right
  {
    assert (tail + right)[0] == tail[0];
    if tail[0].ttype == x.ttype {
      assert (tail + right)[1..] == tail[1..] + right;
    }
  }

  /** Where two sequences meet at a change of type, merging their
      concatenation merges each separately. */
  lemma {:induction false} MergedAppend<T>(xs: seq<Token<T>>, ys: seq<Token<T>>)
    requires xs != [] && ys != []
    requires xs[|xs| - 1].ttype != ys[0].ttype
    ensures Merged(xs + ys) == Merged(xs) + Merged(ys)
  {
    var x, rest := xs[0], xs[1..];
    assert xs + ys == [x] + (rest + ys);
    MergedCons(x, rest + ys);
    if rest == [] {
      assert rest + ys == ys;
    } else {
      MergedAppend(rest, ys);
      PrependAppend(x, Merged(rest), Merged(ys));
    }
  }

  lemma PrependAbsorb<T>(p: Token<T>, y: Token<T>, r: seq<Token<T>>)
    requires y.ttype == p.ttype
    ensures Prepend(p, Prepend(y, r)) == Prepend(Token(p.ttype, p.value + y.value), r)
  {
    if r != [] && r[0].ttype == p.ttype {
      assert p.value + (y.value + r[0].value) == (p.value + y.value) + r[0].value;
    }
  }

  /** Loop step: a pending token absorbs the next token of its type. */
  lemma MergedAbsorb<T>(p: Token<T>, ys: seq<Token<T>>)
    requires ys != [] && ys[0].ttype == p.ttype
    ensures Merged([p] + ys) == Merged([Token(p.ttype, p.value + ys[0].value)] + ys[1..])
  {
    MergedCons(p, ys);
    assert ys == [ys[0]] + ys[1..];
    MergedCons(ys[0], ys[1..]);
    MergedCons(Token(p.ttype, p.value + ys[0].value), ys[1..]);
    PrependAbsorb(p, ys[0], Merged(ys[1..]));
  }

  /** Loop step: a pending token is emitted when the next type differs. */
  lemma MergedEmit<T>(p: Token<T>, ys: seq<Token<T>>)
    requires ys != [] && ys[0].ttype != p.ttype
    ensures Merged([p] + ys) == [p] + Merged(ys)
  {
    MergedCons(p, ys);
  }

  /** The merger, with the source's accumulator `(lasttype, lastval)`: a
      token of the pending type is appended to the pending text, any other
      type emits the pending token and starts a new one, and the last
      pending token is emitted at the end. Empty input yields nothing: the
      first `next()` ends the generator. */
  method Join<T(==)>(tokens: seq<Token<T>>) returns (merged: seq<Token<T>>)
    ensures merged == Merged(tokens)
    ensures Texts(merged) == Texts(tokens)
    ensures Maximal(merged)
    ensures Types(merged) == Dedup(Types(tokens))
  {
    merged := [];
    if tokens == [] {
      MergedTypes(tokens);
      return;
    }
    var lasttype, lastval := tokens[0].ttype, tokens[0].value;
    assert [Token(lasttype, lastval)] + tokens[1..] == tokens;
    for i := 1 to |tokens|
      invariant merged + Merged([Token(lasttype, lastval)] + tokens[i..]) == Merged(tokens)
    {
      var ttype, value := tokens[i].ttype, tokens[i].value;
      if ttype == lasttype {
        MergedAbsorb(Token(lasttype, lastval), tokens[i..]);
        lastval := lastval + value;
      } else {
        MergedEmit(Token(lasttype, lastval), tokens[i..]);
        merged := merged + [Token(lasttype, lastval)];
        lasttype, lastval := ttype, value;
      }
      assert tokens[i..][1..] == tokens[i + 1..];
    }
    assert tokens[|tokens|..] == [];
    MergedCons(Token(lasttype, lastval), []);
    merged := merged + [Token(lasttype, lastval)];
    MergedLossless(tokens);
    MergedMaximal(tokens);
    MergedTypes(tokens);
  }
}
