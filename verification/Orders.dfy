/** Rust's `Ordering`, chains of `then_with`, and the derived comparisons the reporting order is built from. */
module Orders {
  import opened Wrappers

  datatype Ordering = Less | Equal | Greater

  function Flip(o: Ordering): Ordering {
    match o
    case Less => Greater
    case Equal => Equal
    case Greater => Less
  }

  /** The first comparison that decides: `a.then_with(|| b).then_with(|| c)`. */
  function Chain(os: seq<Ordering>): Ordering {
    if os == [] then Equal else if os[0] != Equal then os[0] else Chain(os[1..])
  }

  /** What comparing `a` with `b` and `b` with `c` forces of comparing `a` with `c`. */
  predicate Fair(ab: Ordering, bc: Ordering, ac: Ordering) {
    ab != Greater && bc != Greater ==> ac == if ab == Equal && bc == Equal then Equal else Less
  }

  lemma {:induction false} ChainFlip(xs: seq<Ordering>, ys: seq<Ordering>)
    requires |xs| == |ys| && forall i :: 0 <= i < |xs| ==> ys[i] == Flip(xs[i])
    ensures Chain(ys) == Flip(Chain(xs))
  {
    if xs != [] {
      ChainFlip(xs[1..], ys[1..]);
    }
  }

  lemma {:induction false} ChainFair(xs: seq<Ordering>, ys: seq<Ordering>, zs: seq<Ordering>)
    requires |xs| == |ys| == |zs| && forall i :: 0 <= i < |xs| ==> Fair(xs[i], ys[i], zs[i])
    ensures Fair(Chain(xs), Chain(ys), Chain(zs))
  {
    if xs != [] {
      assert Fair(xs[0], ys[0], zs[0]);
      ChainFair(xs[1..], ys[1..], zs[1..]);
    }
  }

  lemma {:induction false} ChainEqual(xs: seq<Ordering>)
    ensures Chain(xs) == Equal <==> forall i :: 0 <= i < |xs| ==> xs[i] == Equal
  {
    if xs != [] {
      ChainEqual(xs[1..]);
      if xs[0] == Equal {
        assert forall i :: 0 < i < |xs| ==> xs[i] == xs[1..][i - 1];
        assert forall i :: 0 <= i < |xs[1..]| ==> xs[1..][i] == xs[i + 1];
      }
    }
  }

  lemma TwoParts(x: Ordering, y: Ordering)
    ensures Chain([x, y]) == if x != Equal then x else y
  {
    assert Chain([x, y][1..]) == Chain([y]) == y by {
      assert [x, y][1..] == [y] && Chain([y][1..]) == Equal;
    }
  }

  /** A chain is lawful when each of its parts is. */
  lemma ByParts(ab: seq<Ordering>, ba: seq<Ordering>, bc: seq<Ordering>, ac: seq<Ordering>)
    requires |ab| == |ba| == |bc| == |ac|
    requires forall i :: 0 <= i < |ab| ==> ba[i] == Flip(ab[i]) && Fair(ab[i], bc[i], ac[i])
    ensures Chain(ba) == Flip(Chain(ab)) && Fair(Chain(ab), Chain(bc), Chain(ac))
  {
    ChainFlip(ab, ba);
    ChainFair(ab, bc, ac);
  }

  // ---- the comparisons of the parts

  function CompareNat(a: nat, b: nat): Ordering {
    if a < b then Less else if a == b then Equal else Greater
  }

  type Bytes = seq<nat>

  /** Strings and byte strings compare byte by byte, and a prefix comes first. */
  function CompareBytes(a: Bytes, b: Bytes): Ordering {
    if a == [] && b == [] then Equal
    else if a == [] then Less
    else if b == [] then Greater
    else if a[0] != b[0] then CompareNat(a[0], b[0])
    else CompareBytes(a[1..], b[1..])
  }

  lemma {:induction false} BytesFlip(a: Bytes, b: Bytes)
    ensures CompareBytes(b, a) == Flip(CompareBytes(a, b))
  {
    if a != [] && b != [] {
      BytesFlip(a[1..], b[1..]);
    }
  }

  lemma {:induction false} BytesFair(a: Bytes, b: Bytes, c: Bytes)
    ensures Fair(CompareBytes(a, b), CompareBytes(b, c), CompareBytes(a, c))
  {
    if a != [] && b != [] && c != [] {
      BytesFair(a[1..], b[1..], c[1..]);
    }
  }

  lemma {:induction false} BytesEqual(a: Bytes, b: Bytes)
    ensures CompareBytes(a, b) == Equal <==> a == b
  {
    if a != [] && b != [] {
      BytesEqual(a[1..], b[1..]);
      assert a == [a[0]] + a[1..] && b == [b[0]] + b[1..];
    }
  }

  /** `a` and `b` are the same up to `k`, where `a` ends first or has the smaller byte. */
  predicate SmallerAt(a: Bytes, b: Bytes, k: nat) {
    && k <= |a| && k < |b| && a[..k] == b[..k]
    && (k < |a| ==> a[k] < b[k])
  }

  ghost predicate Smaller(a: Bytes, b: Bytes) {
    exists k: nat :: SmallerAt(a, b, k)
  }

  /** What comparing bytes means, and that numbers compare as numbers do. */
  lemma {:induction false} BytesMean(a: Bytes, b: Bytes)
    ensures CompareBytes(a, b) == Less <==> Smaller(a, b)
    ensures CompareBytes(a, b) == Greater <==> Smaller(b, a)
    ensures CompareBytes(a, b) == Equal <==> a == b
  {
    BytesEqual(a, b);
    if a == [] || b == [] {
      assert b != [] ==> SmallerAt(a, b, 0);
      assert a != [] ==> SmallerAt(b, a, 0);
    } else if a[0] != b[0] {
      assert a[0] < b[0] ==> SmallerAt(a, b, 0);
      assert b[0] < a[0] ==> SmallerAt(b, a, 0);
      assert forall k: nat :: 0 < k <= |a| && k <= |b| ==> a[..k][0] == a[0] && b[..k][0] == b[0];
    } else {
      BytesMean(a[1..], b[1..]);
      SmallerTail(a, b);
      SmallerTail(b, a);
    }
  }

  lemma SmallerTail(a: Bytes, b: Bytes)
    requires a != [] && b != [] && a[0] == b[0]
    ensures Smaller(a, b) <==> Smaller(a[1..], b[1..])
  {
    if k: nat :| SmallerAt(a, b, k) {
      assert k > 0;
      assert a[1..][..k - 1] == a[..k][1..] && b[1..][..k - 1] == b[..k][1..];
      assert SmallerAt(a[1..], b[1..], k - 1);
    }
    if k: nat :| SmallerAt(a[1..], b[1..], k) {
      assert a[..k + 1] == [a[0]] + a[1..][..k] && b[..k + 1] == [b[0]] + b[1..][..k];
      assert SmallerAt(a, b, k + 1);
    }
  }

  lemma BytesLaws(a: Bytes, b: Bytes, c: Bytes)
    ensures CompareBytes(b, a) == Flip(CompareBytes(a, b))
    ensures Fair(CompareBytes(a, b), CompareBytes(b, c), CompareBytes(a, c))
  {
    BytesFlip(a, b);
    BytesFair(a, b, c);
  }

  /** Nothing comes before something. */
  function CompareOption<T>(a: Option<T>, b: Option<T>, compare: (T, T) -> Ordering): Ordering {
    if a.None? && b.None? then Equal
    else if a.None? then Less
    else if b.None? then Greater
    else compare(a.value, b.value)
  }

  /** A comparison that orders: it flips, and it is transitive in the strict sense too. */
  ghost predicate Lawful<T(!new)>(compare: (T, T) -> Ordering) {
    && (forall a, b :: compare(b, a) == Flip(compare(a, b)))
    && (forall a, b, c :: Fair(compare(a, b), compare(b, c), compare(a, c)))
  }

  lemma OptionLawful<T(!new)>(compare: (T, T) -> Ordering, a: Option<T>, b: Option<T>, c: Option<T>)
    requires Lawful(compare)
    ensures CompareOption(b, a, compare) == Flip(CompareOption(a, b, compare))
    ensures Fair(CompareOption(a, b, compare), CompareOption(b, c, compare), CompareOption(a, c, compare))
  {
    if a.Some? && b.Some? && c.Some? {
      assert Fair(compare(a.value, b.value), compare(b.value, c.value), compare(a.value, c.value));
    }
  }

  lemma BytesLawful()
    ensures Lawful(CompareBytes)
  {
    forall a, b, c
      ensures CompareBytes(b, a) == Flip(CompareBytes(a, b))
      ensures Fair(CompareBytes(a, b), CompareBytes(b, c), CompareBytes(a, c))
    {
      BytesLaws(a, b, c);
    }
  }
}
