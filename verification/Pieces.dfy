/** Lists joined from one piece for each element they are made of. */
module Pieces {
  import opened Sorting

  /** The `i`-th of the `n` pieces of `whole` runs from `at[i]` to `at[i + 1]`. */
  predicate Cuts<T>(whole: seq<T>, at: seq<nat>, n: nat) {
    && |at| == n + 1 && at[0] == 0 && at[n] == |whole|
    && forall i, j :: 0 <= i <= j <= n ==> at[i] <= at[j]
  }

  function Piece<T>(whole: seq<T>, at: seq<nat>, n: nat, i: nat): seq<T>
    requires Cuts(whole, at, n) && i < n
  {
    whole[at[i]..at[i + 1]]
  }

  lemma NoPieces<T>(whole: seq<T>)
    requires whole == []
    ensures Cuts(whole, [0], 0)
  {
  }

  lemma OnePieceMore<T>(whole: seq<T>, at: seq<nat>, n: nat, piece: seq<T>) returns (more: seq<nat>)
    requires Cuts(whole, at, n)
    ensures Cuts(whole + piece, more, n + 1) && Piece(whole + piece, more, n + 1, n) == piece
    ensures forall i :: 0 <= i < n ==> Piece(whole + piece, more, n + 1, i) == Piece(whole, at, n, i)
  {
    more := at + [|whole| + |piece|];
    assert Cuts(whole + piece, more, n + 1);
    forall i | 0 <= i < n
      ensures Piece(whole + piece, more, n + 1, i) == Piece(whole, at, n, i)
    {
      assert at[i + 1] <= at[n];
    }
    assert more[n] == |whole| && (whole + piece)[|whole|..more[n + 1]] == piece;
  }

  /** Everything in the lists, whatever their order. */
  ghost function Together<T>(lists: seq<seq<T>>): multiset<T> {
    if lists == [] then multiset{} else Together(lists[..|lists| - 1]) + multiset(lists[|lists| - 1])
  }

  /** What the elements contribute is cut where one element's part ends and the next begins. */
  lemma {:induction false} FlatCuts<T, U>(f: T -> seq<U>, s: seq<T>) returns (at: seq<nat>)
    ensures Cuts(Flat(f, s), at, |s|) && forall i :: 0 <= i < |s| ==> Piece(Flat(f, s), at, |s|, i) == f(s[i])
  {
    hide Cuts, Flat;
    if s == [] {
      NothingFlat(f, s);
      NoPieces(Flat(f, s));
      at := [0];
    } else {
      var n := |s| - 1;
      at := FlatCuts(f, s[..n]);
      FlatOneMore(f, s, n);
      assert s[..n + 1] == s;
      at := OnePieceMore(Flat(f, s[..n]), at, n, f(s[n]));
    }
  }

  lemma NothingFlat<T, U>(f: T -> seq<U>, none: seq<T>)
    requires none == []
    ensures Flat(f, none) == []
  {
  }

  lemma {:induction false} FlatTogether<T, U>(f: T -> seq<U>, s: seq<T>, lists: seq<seq<U>>)
    requires |lists| == |s| && forall i :: 0 <= i < |s| ==> lists[i] == f(s[i])
    ensures multiset(Flat(f, s)) == Together(lists)
  {
    if s != [] {
      var n := |s| - 1;
      FlatTogether(f, s[..n], lists[..n]);
      FlatOneMore(f, s, n);
      assert s[..n + 1] == s;
    }
  }
}
