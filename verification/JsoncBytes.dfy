/** Normalizing moves no byte: every newline and every byte of a string stays where it was. */
module JsoncBytes {
  import opened Utf8
  import opened Jsonc

  // ---- kinds by byte

  function Expand(s: seq<Scalar>, kinds: seq<Kind>): (r: seq<Kind>)
    requires |s| == |kinds|
    ensures |r| == |Encode(s)|
  {
    if s == [] then [] else Repeat(Width(s[0]), kinds[0]) + Expand(s[1..], kinds[1..])
  }

  /** What each byte is part of, comments and strings alike. */
  function ByteKinds(s: seq<Scalar>): (r: seq<Kind>)
    ensures |r| == |Encode(s)|
  {
    Expand(s, Kinds(s, true))
  }

  lemma {:induction false} ExpandConcat(a: seq<Scalar>, b: seq<Scalar>, x: seq<Kind>, y: seq<Kind>)
    requires |a| == |x| && |b| == |y|
    ensures Expand(a + b, x + y) == Expand(a, x) + Expand(b, y)
    decreases |a|
  {
    hide Encode;
    if a == [] {
      assert a + b == b && x + y == y;
    } else {
      assert (a + b)[0] == a[0] && (a + b)[1..] == a[1..] + b;
      assert (x + y)[0] == x[0] && (x + y)[1..] == x[1..] + y;
      ExpandConcat(a[1..], b, x[1..], y);
      var first := Repeat(Width(a[0]), x[0]);
      assert first + (Expand(a[1..], x[1..]) + Expand(b, y)) == (first + Expand(a[1..], x[1..])) + Expand(b, y);
    }
  }

  lemma {:induction false} ExpandRepeat(s: seq<Scalar>, x: Kind)
    ensures Expand(s, Repeat(|s|, x)) == Repeat(|Encode(s)|, x)
  {
    if s != [] {
      ExpandRepeat(s[1..], x);
      assert Repeat(|s|, x)[1..] == Repeat(|s| - 1, x);
      assert |Encode(s)| == Width(s[0]) + |Encode(s[1..])|;
    }
  }

  // ---- the comment pass by byte

  function BlankByte(b: Byte, kind: Kind): Byte {
    if kind == Comment && b != NEWLINE then SPACE else b
  }

  function Masked(bytes: seq<Byte>, kinds: seq<Kind>): (r: seq<Byte>)
    requires |bytes| == |kinds|
    ensures |r| == |bytes| && forall k :: 0 <= k < |r| ==> r[k] == BlankByte(bytes[k], kinds[k])
  {
    seq(|bytes|, k requires 0 <= k < |bytes| => BlankByte(bytes[k], kinds[k]))
  }

  lemma MaskedConcat(a: seq<Byte>, b: seq<Byte>, x: seq<Kind>, y: seq<Kind>)
    requires |a| == |x| && |b| == |y|
    ensures Masked(a + b, x + y) == Masked(a, x) + Masked(b, y)
  {
  }

  lemma BlankScalarBytes(c: Scalar)
    ensures Encode(BlankScalar(c)) == Masked(EncodeScalar(c), Repeat(Width(c), Comment))
  {
    if c == NEWLINE {
      EncodeOne(NEWLINE);
    } else {
      AsciiOnly(Repeat(Width(c), SPACE));
    }
  }

  lemma {:induction false} BlankAllBytes(s: seq<Scalar>)
    ensures Encode(BlankAll(s)) == Masked(Encode(s), Repeat(|Encode(s)|, Comment))
  {
    if s == [] {
    } else {
      hide Encode, EncodeScalar, BlankScalar, Masked;
      var n := |s| - 1;
      var front, last := s[..n], s[n];
      BlankAllBytes(front);
      BlankScalarBytes(last);
      EncodeConcat(BlankAll(front), BlankScalar(last));
      EncodeConcat(front, [last]);
      EncodeOne(last);
      assert s == front + [last];
      MaskedConcat(Encode(front), EncodeScalar(last), Repeat(|Encode(front)|, Comment), Repeat(Width(last), Comment));
      assert Repeat(|Encode(s)|, Comment) == Repeat(|Encode(front)|, Comment) + Repeat(Width(last), Comment);
    }
  }

  lemma MaskedKeeps(bytes: seq<Byte>, kind: Kind)
    requires kind != Comment
    ensures Masked(bytes, Repeat(|bytes|, kind)) == bytes
  {
  }

  lemma WrittenBytes(token: seq<Scalar>, kind: Kind)
    ensures Encode(Written(token, kind)) == Masked(Encode(token), Repeat(|Encode(token)|, kind))
  {
    hide Encode, Masked;
    if kind == Comment {
      BlankAllBytes(token);
    } else {
      MaskedKeeps(Encode(token), kind);
    }
  }

  lemma KindsByToken(s: seq<Scalar>)
    requires s != []
    ensures var n := TokenLength(s, true);
            ByteKinds(s) == Repeat(|Encode(s[..n])|, KindOf(s, true)) + ByteKinds(s[n..])
  {
    hide Encode, TokenLength, KindOf, Expand;
    var n := TokenLength(s, true);
    assert s == s[..n] + s[n..];
    ExpandConcat(s[..n], s[n..], Repeat(n, KindOf(s, true)), Kinds(s[n..], true));
    ExpandRepeat(s[..n], KindOf(s, true));
  }

  /** The comment pass writes a space over every byte of a comment but its newlines, and no other byte. */
  lemma {:induction false} BlankedBytes(s: seq<Scalar>)
    ensures Encode(Blanked(s)) == Masked(Encode(s), ByteKinds(s))
    decreases |s|
  {
    if s == [] {
    } else {
      hide Encode, Masked, ByteKinds, TokenLength, KindOf, Written;
      var n, kind := TokenLength(s, true), KindOf(s, true);
      BlankedBytes(s[n..]);
      KindsByToken(s);
      WrittenBytes(s[..n], kind);
      EncodeConcat(Written(s[..n], kind), Blanked(s[n..]));
      EncodeSplit(s, n);
      MaskedConcat(Encode(s[..n]), Encode(s[n..]), Repeat(|Encode(s[..n])|, kind), ByteKinds(s[n..]));
    }
  }

  /** The kinds with every comment forgotten. */
  function Forget(kinds: seq<Kind>): (r: seq<Kind>)
    ensures |r| == |kinds| && forall k :: 0 <= k < |r| ==> r[k] == if kinds[k] == Quoted then Quoted else Plain
  {
    seq(|kinds|, k requires 0 <= k < |kinds| => if kinds[k] == Quoted then Quoted else Plain)
  }

  lemma ForgetConcat(size: nat, kind: Kind, rest: seq<Kind>)
    ensures Forget(Repeat(size, kind) + rest) == Repeat(size, if kind == Quoted then Quoted else Plain) + Forget(rest)
  {
  }

  lemma {:induction false} ForgottenBytes(s: seq<Scalar>)
    ensures |Uncommented(s)| == |Blanked(s)|
    ensures Expand(Blanked(s), Uncommented(s)) == Forget(ByteKinds(s))
    decreases |s|
  {
    if s == [] {
    } else {
      hide Encode, ByteKinds, TokenLength, KindOf, Written, Expand, Masked, Forget;
      var n, kind := TokenLength(s, true), KindOf(s, true);
      var written, seen := Written(s[..n], kind), if kind == Quoted then Quoted else Plain;
      ForgottenBytes(s[n..]);
      ExpandConcat(written, Blanked(s[n..]), Repeat(|written|, seen), Uncommented(s[n..]));
      ExpandRepeat(written, seen);
      WrittenBytes(s[..n], kind);
      KindsByToken(s);
      ForgetConcat(|Encode(s[..n])|, kind, ByteKinds(s[n..]));
    }
  }

  /** Read again, the comment pass's output has its strings on the same bytes, and no comment. */
  lemma BlankedRelexed(s: seq<Scalar>)
    ensures ByteKinds(Blanked(s)) == Forget(ByteKinds(s))
  {
    hide Encode, Kinds, Blanked, Uncommented, Expand;
    Relexed(s, true);
    ForgottenBytes(s);
  }

  // ---- the comma pass

  /** `u` is `s` with some commas outside strings turned into spaces. */
  predicate Swapped(s: seq<Scalar>, u: seq<Scalar>, kinds: seq<Kind>) {
    && |s| == |u| == |kinds|
    && forall k :: 0 <= k < |s| ==> u[k] == s[k] || (s[k] == COMMA && u[k] == SPACE && kinds[k] == Plain)
  }

  /** Turning commas outside strings into spaces leaves every scalar part of what it was. */
  lemma {:induction false} SwappedKinds(s: seq<Scalar>, u: seq<Scalar>, comments: bool)
    requires Comment !in Kinds(s, comments) && Swapped(s, u, Kinds(s, comments))
    ensures Kinds(u, comments) == Kinds(s, comments)
    decreases |s|
  {
    if s != [] {
      var n := TokenLength(s, comments);
      SwappedToken(s, u, comments);
      SwappedRest(s, u, comments);
      SwappedKinds(s[n..], u[n..], comments);
    }
  }

  lemma SwappedRest(s: seq<Scalar>, u: seq<Scalar>, comments: bool)
    requires s != [] && Comment !in Kinds(s, comments) && Swapped(s, u, Kinds(s, comments))
    ensures var n := TokenLength(s, comments);
            Comment !in Kinds(s[n..], comments) && Swapped(s[n..], u[n..], Kinds(s[n..], comments))
  {
    hide TokenLength, KindOf;
    var n, kinds := TokenLength(s, comments), Kinds(s, comments);
    assert kinds[n..] == Kinds(s[n..], comments);
    assert forall k :: 0 <= k < |kinds[n..]| ==> kinds[n..][k] in kinds;
    forall k | 0 <= k < |s[n..]|
      ensures u[n..][k] == s[n..][k] || (s[n..][k] == COMMA && u[n..][k] == SPACE && kinds[n..][k] == Plain)
    {
      assert u[n + k] == s[n + k] || (s[n + k] == COMMA && u[n + k] == SPACE && kinds[n + k] == Plain);
    }
  }

  lemma SwappedToken(s: seq<Scalar>, u: seq<Scalar>, comments: bool)
    requires s != [] && Comment !in Kinds(s, comments) && Swapped(s, u, Kinds(s, comments))
    ensures TokenLength(u, comments) == TokenLength(s, comments) && KindOf(u, comments) == KindOf(s, comments)
  {
    hide StringEnd, LineEnd, BlockEnd, Closes;
    var n, kinds := TokenLength(s, comments), Kinds(s, comments);
    assert kinds[0] == KindOf(s, comments) && kinds[0] in kinds;
    if s[0] == QUOTE {
      assert forall k :: 0 <= k < n ==> kinds[k] == Quoted;
      assert u[..n] == s[..n];
      if n < |s| || Closes(s, n - 1) {
        ClosedString(s, n, u[n..], comments);
        assert u == s[..n] + u[n..];
      } else {
        assert u == s;
      }
    } else {
      assert |s| > 1 ==> (u[1] == s[1] || s[1] == COMMA);
    }
  }

  lemma {:induction false} SwappedBytes(s: seq<Scalar>, u: seq<Scalar>, kinds: seq<Kind>)
    requires Swapped(s, u, kinds)
    ensures Swapped(Encode(s), Encode(u), Expand(s, kinds))
    decreases |s|
  {
    if s != [] {
      SwappedBytes(s[1..], u[1..], kinds[1..]);
      var x, y := EncodeScalar(s[0]), EncodeScalar(u[0]);
      assert Encode(s) == x + Encode(s[1..]) && Encode(u) == y + Encode(u[1..]);
      assert Expand(s, kinds) == Repeat(|x|, kinds[0]) + Expand(s[1..], kinds[1..]);
      SwappedConcat(x, y, Repeat(|x|, kinds[0]), Encode(s[1..]), Encode(u[1..]), Expand(s[1..], kinds[1..]));
    }
  }

  lemma SwappedConcat(a: seq<Scalar>, b: seq<Scalar>, x: seq<Kind>, c: seq<Scalar>, d: seq<Scalar>, y: seq<Kind>)
    requires Swapped(a, b, x) && Swapped(c, d, y)
    ensures Swapped(a + c, b + d, x + y)
  {
  }

  lemma UncommaSwaps(s: seq<Scalar>)
    ensures Swapped(s, Uncomma(s), Kinds(s, false))
  {
    hide Kinds;
  }

  /** Outside comments there is nothing to tell the two readings apart. */
  lemma {:induction false} NoCommentKinds(s: seq<Scalar>)
    requires Comment !in Kinds(s, true)
    ensures Kinds(s, false) == Kinds(s, true)
    decreases |s|
  {
    if s != [] {
      var n, kinds := TokenLength(s, true), Kinds(s, true);
      assert kinds[0] == KindOf(s, true) && kinds[0] in kinds;
      assert TokenLength(s, false) == n;
      assert kinds[n..] == Kinds(s[n..], true);
      assert forall k :: 0 <= k < |kinds[n..]| ==> kinds[n..][k] in kinds;
      NoCommentKinds(s[n..]);
    }
  }

  /** What the comma pass does to source that holds no comment. */
  lemma UncommaBytes(s: seq<Scalar>)
    requires Comment !in Kinds(s, true)
    ensures Kinds(Uncomma(s), true) == Kinds(s, true)
    ensures Swapped(Encode(s), Encode(Uncomma(s)), ByteKinds(s))
    ensures ByteKinds(Uncomma(s)) == ByteKinds(s)
  {
    hide Encode, Uncomma, Kinds, Expand, Swapped;
    UncommaSwaps(s);
    NoCommentKinds(s);
    SwappedKinds(s, Uncomma(s), true);
    SwappedBytes(s, Uncomma(s), Kinds(s, true));
    SwappedExpand(s, Uncomma(s), Kinds(s, true));
  }

  lemma {:induction false} SwappedExpand(s: seq<Scalar>, u: seq<Scalar>, kinds: seq<Kind>)
    requires Swapped(s, u, kinds)
    ensures Expand(u, kinds) == Expand(s, kinds)
    decreases |s|
  {
    hide Encode;
    if s != [] {
      SwappedExpand(s[1..], u[1..], kinds[1..]);
      assert Width(s[0]) == Width(u[0]);
    }
  }

  /** What normalizing may do to one byte. */
  predicate ByteKept(before: Byte, after: Byte, kind: Kind) {
    match kind
    case Quoted => after == before
    case Comment => after == if before == NEWLINE then NEWLINE else SPACE
    case Plain => after == before || (before == COMMA && after == SPACE)
  }

  /** Normalizing keeps the length, every newline and every byte of a string; a comment becomes spaces, and a
      comma outside strings may.  The result has its strings on the same bytes, and no comment. */
  lemma NormalizedBytes(s: seq<Scalar>)
    ensures |Encode(Normalized(s))| == |Encode(s)|
    ensures forall k :: 0 <= k < |Encode(s)| ==> ByteKept(Encode(s)[k], Encode(Normalized(s))[k], ByteKinds(s)[k])
    ensures forall k :: 0 <= k < |Encode(s)| ==> (Encode(Normalized(s))[k] == NEWLINE <==> Encode(s)[k] == NEWLINE)
    ensures ByteKinds(Normalized(s)) == Forget(ByteKinds(s))
  {
    hide Encode, Uncomma, Kinds, ByteKinds, Blanked;
    BlankedBytes(s);
    BlankedIdempotent(s);
    BlankedRelexed(s);
    UncommaBytes(Blanked(s));
  }

  // ---- doing it twice

  /** A comma outside strings whose next scalar but whitespace is a trailing comma. */
  predicate Shielded(s: seq<Scalar>, k: nat, j: nat) {
    PlainComma(s, k) && k < j < |s| && BlankBetween(s, k, j) && TrailingComma(s, j)
  }

  ghost predicate AnyShielded(s: seq<Scalar>) {
    exists k, j :: Shielded(s, k, j)
  }

  /** The comma a second pass takes is one that the first left because another stood between it and the bracket. */
  lemma TakenSecond(s: seq<Scalar>, k: nat)
    requires Kinds(Uncomma(s), false) == Kinds(s, false) && TrailingComma(Uncomma(s), k)
    ensures AnyShielded(s)
  {
    hide Kinds, Uncomma;
    var u := Uncomma(s);
    var n :| k < n < |u| && IsCloser(u[n]) && BlankBetween(u, k, n);
    assert u[n] == s[n] && s[k] == u[k] == COMMA;
    var j := FirstSolid(s, k, n);
    assert !TrailingComma(s, k);
    assert j != n;
    assert IsWhitespace(u[j]) && u[j] != s[j];
    assert TrailingComma(s, j);
    assert Shielded(s, k, j);
  }

  lemma {:induction false} FirstSolid(s: seq<Scalar>, k: nat, n: nat) returns (j: nat)
    requires k < n < |s| && !IsWhitespace(s[n])
    ensures k < j <= n && BlankBetween(s, k, j) && !IsWhitespace(s[j])
    decreases n
  {
    if i :| k < i < n && !IsWhitespace(s[i]) {
      j := FirstSolid(s, k, i);
    } else {
      j := n;
    }
  }

  /** A comma followed by another is not a trailing one. */
  lemma CommaBefore(s: seq<Scalar>, k: nat, j: nat)
    requires k < j < |s| && BlankBetween(s, k, j) && s[j] == COMMA
    ensures !TrailingComma(s, k)
  {
    hide Kinds;
    forall m | k < m < |s| && IsCloser(s[m])
      ensures !BlankBetween(s, k, m)
    {
      assert !IsWhitespace(s[j]);
    }
  }

  lemma ShieldedTaken(s: seq<Scalar>, k: nat, j: nat)
    requires Kinds(Uncomma(s), false) == Kinds(s, false) && Shielded(s, k, j)
    ensures TrailingComma(Uncomma(s), k)
  {
    hide Kinds, Uncomma;
    var u := Uncomma(s);
    CommaBefore(s, k, j);
    var n :| j < n < |s| && IsCloser(s[n]) && BlankBetween(s, j, n);
    assert u[k] == COMMA && u[n] == s[n] && u[j] == SPACE;
    forall i | k < i < n
      ensures IsWhitespace(u[i])
    {
      assert i < j || i == j || j < i;
    }
    assert BlankBetween(u, k, n);
  }

  lemma UncommaTwice(s: seq<Scalar>)
    requires Kinds(Uncomma(s), false) == Kinds(s, false)
    ensures Uncomma(Uncomma(s)) == Uncomma(s) <==> !AnyShielded(s)
  {
    hide Kinds, TrailingComma, Shielded;
    var u := Uncomma(s);
    if k: nat, j: nat :| Shielded(s, k, j) {
      ShieldedTaken(s, k, j);
      TrailingIsComma(u, k);
      assert Uncomma(u)[k] != u[k];
    }
    if Uncomma(u) != u {
      var k :| 0 <= k < |u| && Uncomma(u)[k] != u[k];
      TakenSecond(s, k);
    }
  }

  lemma TrailingIsComma(s: seq<Scalar>, k: nat)
    requires TrailingComma(s, k)
    ensures k < |s| && s[k] == COMMA
  {
  }

  /** Normalizing what was normalized changes nothing exactly when, comments blanked, no comma outside strings
      is followed by a trailing comma. */
  lemma IdempotentExactly(s: seq<Scalar>)
    ensures Normalized(Normalized(s)) == Normalized(s) <==> !AnyShielded(Blanked(s))
  {
    hide Kinds, Uncomma, Blanked, AnyShielded;
    var t := Blanked(s);
    BlankedIdempotent(s);
    UncommaBytes(t);
    NoCommentKinds(t);
    NoCommentKinds(Uncomma(t));
    NothingToBlank(Uncomma(t));
    UncommaTwice(t);
  }

  lemma {:induction false} NoQuoteNoSlash(s: seq<Scalar>, comments: bool)
    requires QUOTE !in s && SLASH !in s
    ensures Kinds(s, comments) == Repeat(|s|, Plain)
    decreases |s|
  {
    if s != [] {
      assert s[0] in s;
      NoQuoteNoSlash(s[1..], comments);
      assert Repeat(|s|, Plain) == Repeat(1, Plain) + Repeat(|s| - 1, Plain);
    }
  }

  /** `[1,,]` keeps its first comma the first time and loses it the second. */
  lemma NotIdempotent()
    ensures var s: seq<Scalar> := [0x5B, 0x31, COMMA, COMMA, 0x5D]; Normalized(Normalized(s)) != Normalized(s)
  {
    hide Kinds, Blanked, Uncomma;
    var s: seq<Scalar> := [0x5B, 0x31, COMMA, COMMA, 0x5D];
    NoQuoteNoSlash(s, true);
    NoQuoteNoSlash(s, false);
    NothingToBlank(s);
    assert IsCloser(s[4]) && BlankBetween(s, 3, 4);
    assert TrailingComma(s, 3);
    assert Shielded(s, 2, 3);
    IdempotentExactly(s);
  }
}
