/** The two passes of `normalize_jsonc`, one flag at a time, proved to write what `Jsonc` says. */
module Normalizer {
  import opened Utf8
  import opened Jsonc

  // ---- where a pass stands inside a string

  /** `j` scalars of the string at the start of `t` are read, it is not closed yet, and the flag says whether
      the next scalar is escaped. */
  predicate InsideString(t: seq<Scalar>, j: nat, escaped: bool) {
    && 0 < j <= |t| && t[0] == QUOTE
    && (forall i :: 0 < i < j ==> !Closes(t, i))
    && (escaped <==> Backslashes(t, j) % 2 == 1)
  }

  lemma StringOpens(t: seq<Scalar>)
    requires t != [] && t[0] == QUOTE
    ensures InsideString(t, 1, false)
  {
  }

  lemma StringGoesOn(t: seq<Scalar>, j: nat, escaped: bool)
    requires InsideString(t, j, escaped) && j < |t| && (escaped || t[j] != QUOTE)
    ensures InsideString(t, j + 1, !escaped && t[j] == BACKSLASH)
  {
  }

  lemma StringCloses(t: seq<Scalar>, j: nat, comments: bool)
    requires InsideString(t, j, false) && j < |t| && t[j] == QUOTE
    ensures TokenLength(t, comments) == j + 1 && KindOf(t, comments) == Quoted
  {
    hide Backslashes, StringEnd;
    assert Closes(t, j);
  }

  lemma StringReaches(t: seq<Scalar>, j: nat, escaped: bool, comments: bool)
    requires InsideString(t, j, escaped)
    ensures TokenLength(t, comments) >= if j < |t| then j + 1 else j
    ensures KindOf(t, comments) == Quoted
  {
    hide Backslashes, StringEnd;
  }

  lemma BlankedToken(t: seq<Scalar>, n: nat, kind: Kind)
    requires t != [] && TokenLength(t, true) == n && KindOf(t, true) == kind
    ensures Blanked(t) == Written(t[..n], kind) + Blanked(t[n..])
  {
  }

  // ---- the comment pass

  method PushCommentMask(output: seq<Scalar>, character: Scalar) returns (r: seq<Scalar>)
    ensures r == output + Repeat(Width(character), SPACE)
  {
    r := output + Repeat(Width(character), SPACE);
  }

  lemma BlankOneMore(t: seq<Scalar>, n: nat)
    requires n < |t|
    ensures BlankAll(t[..n + 1]) == BlankAll(t[..n]) + BlankScalar(t[n])
  {
    assert t[..n + 1][..n] == t[..n];
  }

  lemma BlankOpening(t: seq<Scalar>)
    requires |t| > 1 && (StartsLine(t) || StartsBlock(t))
    ensures BlankAll(t[..2]) == [SPACE, SPACE]
  {
    BlankOneMore(t, 0);
    BlankOneMore(t, 1);
    assert BlankAll(t[..0]) == [];
    assert Repeat(1, SPACE) == [SPACE];
  }

  lemma NewlineToken(t: seq<Scalar>)
    requires t != [] && t[0] == NEWLINE
    ensures Blanked(t) == [NEWLINE] + Blanked(t[1..])
  {
    hide Blanked;
    BlankedToken(t, 1, Plain);
    assert t[..1] == [NEWLINE];
  }

  lemma LineToken(t: seq<Scalar>, n: nat)
    requires StartsLine(t) && 2 <= n <= |t|
    requires forall i :: 2 <= i < n ==> !EndsLine(t, i)
    requires n < |t| ==> EndsLine(t, n)
    ensures Blanked(t) == BlankAll(t[..n]) + Blanked(t[n..])
    ensures n < |t| ==> Blanked(t) == BlankAll(t[..n]) + [NEWLINE] + Blanked(t[n + 1..])
  {
    hide BlankAll, LineEnd, Blanked;
    BlankedToken(t, n, Comment);
    if n < |t| {
      NewlineToken(t[n..]);
      assert t[n..][1..] == t[n + 1..];
      assert BlankAll(t[..n]) + ([NEWLINE] + Blanked(t[n + 1..])) == BlankAll(t[..n]) + [NEWLINE] + Blanked(t[n + 1..]);
    }
  }

  lemma BlockToken(t: seq<Scalar>, n: nat)
    requires StartsBlock(t) && 2 <= n <= |t|
    requires forall i :: 3 <= i < n - 1 ==> !EndsBlock(t, i)
    requires EndsBlock(t, n - 1) || n == |t|
    ensures Blanked(t) == BlankAll(t[..n]) + Blanked(t[n..])
  {
    hide BlankAll, BlockEnd, Blanked;
    BlankedToken(t, n, Comment);
  }

  /** Read a line comment whose two slashes are already masked, up to and with the newline that ends it. */
  method LineComment(t: seq<Scalar>, before: seq<Scalar>) returns (output: seq<Scalar>, next: nat)
    requires StartsLine(t)
    ensures next <= |t| && output + Blanked(t[next..]) == before + Blanked(t) && 0 < next
  {
    hide BlankAll, Blanked, LineEnd;
    BlankOpening(t);
    output := before + [SPACE] + [SPACE];
    next := 2;
    while next < |t|
      invariant 2 <= next <= |t| && output == before + BlankAll(t[..next])
      invariant forall i :: 2 <= i < next ==> !EndsLine(t, i)
    {
      var comment := t[next];
      if comment == NEWLINE {
        LineToken(t, next);
        output := output + [NEWLINE];
        next := next + 1;
        return;
      }
      BlankOneMore(t, next);
      output := PushCommentMask(output, comment);
      next := next + 1;
    }
    LineToken(t, next);
  }

  /** Read a block comment whose slash and star are already masked, up to and with the star and slash that end it. */
  method BlockComment(t: seq<Scalar>, before: seq<Scalar>) returns (output: seq<Scalar>, next: nat)
    requires StartsBlock(t)
    ensures next <= |t| && output + Blanked(t[next..]) == before + Blanked(t) && 0 < next
  {
    hide BlankAll, Blanked, BlockEnd;
    BlankOpening(t);
    output := before + [SPACE] + [SPACE];
    next := 2;
    var previous: Scalar := 0;
    while next < |t|
      invariant 2 <= next <= |t| && output == before + BlankAll(t[..next])
      invariant previous == if next == 2 then 0 else t[next - 1]
      invariant forall i :: 3 <= i < next ==> !EndsBlock(t, i)
    {
      var comment := t[next];
      BlankOneMore(t, next);
      if comment == NEWLINE {
        output := output + [NEWLINE];
      } else {
        output := PushCommentMask(output, comment);
      }
      next := next + 1;
      if previous == STAR && comment == SLASH {
        break;
      }
      previous := comment;
    }
    BlockToken(t, next);
  }

  /** Where the comment pass stands: what it wrote before the token at `start`, and the part of a string it is in. */
  ghost predicate Stripping(source: seq<Scalar>, start: nat, at: nat, inString: bool, escaped: bool,
                            output: seq<Scalar>, done: seq<Scalar>)
  {
    && start <= at <= |source| && done + Blanked(source[start..]) == Blanked(source)
    && output == done + source[start..at]
    && if inString then InsideString(source[start..], at - start, escaped) else start == at && !escaped
  }

  lemma StrippingStarts(source: seq<Scalar>)
    ensures Stripping(source, 0, 0, false, false, [], [])
  {
    hide Blanked;
    assert source[0..] == source;
  }

  lemma NextWritten(source: seq<Scalar>, start: nat, at: nat, output: seq<Scalar>, done: seq<Scalar>)
    requires start <= at < |source| && output == done + source[start..at]
    ensures output + [source[at]] == done + source[start..at + 1]
  {
    assert source[start..at + 1] == source[start..at] + [source[at]];
  }

  lemma InStringOn(source: seq<Scalar>, start: nat, at: nat, escaped: bool, output: seq<Scalar>, done: seq<Scalar>)
    requires Stripping(source, start, at, true, escaped, output, done) && at < |source|
    requires escaped || source[at] != QUOTE
    ensures Stripping(source, start, at + 1, true, !escaped && source[at] == BACKSLASH, output + [source[at]], done)
  {
    hide Blanked, InsideString;
    StringGoesOn(source[start..], at - start, escaped);
    NextWritten(source, start, at, output, done);
  }

  lemma InStringDone(source: seq<Scalar>, start: nat, at: nat, output: seq<Scalar>, done: seq<Scalar>)
    requires Stripping(source, start, at, true, false, output, done) && at < |source| && source[at] == QUOTE
    ensures var after := output + [source[at]]; Stripping(source, at + 1, at + 1, false, false, after, after)
  {
    hide Blanked, InsideString, TokenLength, KindOf;
    StringCloses(source[start..], at - start, true);
    TokenDone(source, start, at + 1, Quoted, done);
    NextWritten(source, start, at, output, done);
  }

  lemma StringStartsAt(source: seq<Scalar>, at: nat, output: seq<Scalar>)
    requires Stripping(source, at, at, false, false, output, output) && at < |source| && source[at] == QUOTE
    ensures Stripping(source, at, at + 1, true, false, output + [source[at]], output)
  {
    hide Blanked, InsideString;
    StringOpens(source[at..]);
    NextWritten(source, at, at, output, output);
  }

  lemma PlainDone(source: seq<Scalar>, at: nat, output: seq<Scalar>)
    requires Stripping(source, at, at, false, false, output, output) && at < |source|
    requires KindOf(source[at..], true) == Plain
    ensures var after := output + [source[at]]; Stripping(source, at + 1, at + 1, false, false, after, after)
  {
    hide Blanked, InsideString, StringEnd, LineEnd, BlockEnd;
    assert TokenLength(source[at..], true) == 1;
    TokenDone(source, at, at + 1, Plain, output);
    NextWritten(source, at, at, output, output);
  }

  lemma CommentDone(source: seq<Scalar>, at: nat, next: nat, before: seq<Scalar>, output: seq<Scalar>)
    requires Stripping(source, at, at, false, false, before, before) && at + next <= |source|
    requires output + Blanked(source[at..][next..]) == before + Blanked(source[at..])
    ensures Stripping(source, at + next, at + next, false, false, output, output)
  {
    hide Blanked;
    assert source[at..][next..] == source[at + next..];
  }

  /** Blank every comment, byte for byte. */
  method StripComments(source: seq<Scalar>) returns (output: seq<Scalar>)
    ensures output == Blanked(source)
  {
    hide BlankAll, Blanked, Stripping;
    output := [];
    var inString, escaped := false, false;
    var at := 0;
    ghost var start, done: seq<Scalar> := 0, [];
    StrippingStarts(source);
    while at < |source|
      invariant 0 <= at <= |source| && Stripping(source, start, at, inString, escaped, output, done)
      invariant !inString ==> start == at && output == done && !escaped
    {
      var c := source[at];
      if inString {
        if escaped {
          InStringOn(source, start, at, true, output, done);
          escaped := false;
        } else if c == BACKSLASH {
          InStringOn(source, start, at, false, output, done);
          escaped := true;
        } else if c == QUOTE {
          InStringDone(source, start, at, output, done);
          inString := false;
          start, done := at + 1, output + [c];
        } else {
          InStringOn(source, start, at, false, output, done);
        }
        output := output + [c];
        at := at + 1;
      } else if c == QUOTE {
        StringStartsAt(source, at, output);
        inString := true;
        output := output + [c];
        at := at + 1;
      } else if c == SLASH && at + 1 < |source| && source[at + 1] == SLASH {
        var after, next := LineComment(source[at..], output);
        CommentDone(source, at, next, output, after);
        at, output := at + next, after;
        start, done := at, output;
      } else if c == SLASH && at + 1 < |source| && source[at + 1] == STAR {
        var after, next := BlockComment(source[at..], output);
        CommentDone(source, at, next, output, after);
        at, output := at + next, after;
        start, done := at, output;
      } else {
        PlainDone(source, at, output);
        output := output + [c];
        at := at + 1;
        start, done := at, output;
      }
    }
    Stripped(source, start, inString, escaped, output, done);
  }

  /** A token that is not a comment is written as it is. */
  lemma TokenDone(source: seq<Scalar>, start: nat, end: nat, kind: Kind, done: seq<Scalar>)
    requires start < end <= |source| && kind != Comment
    requires TokenLength(source[start..], true) == end - start && KindOf(source[start..], true) == kind
    ensures done + Blanked(source[start..]) == done + source[start..end] + Blanked(source[end..])
  {
    hide Blanked, TokenLength, KindOf;
    var t, n := source[start..], end - start;
    BlankedToken(t, n, kind);
    assert t[..n] == source[start..end] && t[n..] == source[end..];
    assert done + (source[start..end] + Blanked(source[end..])) == done + source[start..end] + Blanked(source[end..]);
  }

  /** A string nothing closes reaches the end. */
  lemma Stripped(source: seq<Scalar>, start: nat, inString: bool, escaped: bool, output: seq<Scalar>, done: seq<Scalar>)
    requires Stripping(source, start, |source|, inString, escaped, output, done)
    ensures output == Blanked(source)
  {
    hide Blanked, InsideString, TokenLength, KindOf;
    var t := source[start..];
    NothingLeft(t[|t|..]);
    if inString {
      StringReaches(t, |t|, escaped, true);
      BlankedToken(t, |t|, Quoted);
      assert t[..|t|] == t;
    }
  }

  lemma NothingLeft(t: seq<Scalar>)
    requires t == []
    ensures Blanked(t) == []
  {
  }

  // ---- the comma pass

  lemma KindsInside(s: seq<Scalar>, start: nat, n: nat)
    requires start < |s| && Kinds(s, false)[start..] == Kinds(s[start..], false) && n == TokenLength(s[start..], false)
    ensures start + n <= |s|
    ensures forall k :: start <= k < start + n ==> Kinds(s, false)[k] == KindOf(s[start..], false)
    ensures Kinds(s, false)[start + n..] == Kinds(s[start + n..], false)
  {
    hide TokenLength, KindOf, Kinds;
    var t := s[start..];
    FirstKinds(t);
    assert t[n..] == s[start + n..];
    SameTail(Kinds(s, false), start, n, KindOf(t, false), Kinds(t[n..], false));
  }

  lemma FirstKinds(t: seq<Scalar>)
    requires t != []
    ensures var n := TokenLength(t, false); Kinds(t, false) == Repeat(n, KindOf(t, false)) + Kinds(t[n..], false)
  {
  }

  lemma SameTail(kinds: seq<Kind>, start: nat, n: nat, kind: Kind, rest: seq<Kind>)
    requires start <= |kinds| && kinds[start..] == Repeat(n, kind) + rest
    ensures start + n <= |kinds| && kinds[start + n..] == rest
    ensures forall k :: start <= k < start + n ==> kinds[k] == kind
  {
    assert |kinds[start..]| == n + |rest|;
    assert kinds[start..][n..] == kinds[start + n..];
    forall k | start <= k < start + n
      ensures kinds[k] == kind
    {
      assert kinds[k] == kinds[start..][k - start];
    }
  }

  lemma CommaAt(s: seq<Scalar>, k: nat, next: nat)
    requires k < next <= |s| && PlainComma(s, k) && BlankBetween(s, k, next)
    requires next < |s| ==> !IsWhitespace(s[next])
    ensures TrailingComma(s, k) <==> next < |s| && IsCloser(s[next])
  {
    hide Kinds;
    if n :| k < n < |s| && IsCloser(s[n]) && BlankBetween(s, k, n) {
      assert n <= next ==> n == next;
      assert next < |s|;
    }
  }

  /** Where the comma pass stands: it has written what it should up to `index` and nothing after. */
  ghost predicate Swept(s: seq<Scalar>, now: seq<Scalar>, index: nat) {
    && |now| == |s| && index <= |s|
    && (forall k :: 0 <= k < index ==> now[k] == Uncomma(s)[k])
    && (forall k :: index <= k < |s| ==> now[k] == s[k])
  }

  lemma SweptOver(s: seq<Scalar>, now: seq<Scalar>, index: nat)
    requires Swept(s, now, index) && index < |s| && !TrailingComma(s, index)
    ensures Swept(s, now, index + 1)
  {
    hide TrailingComma;
  }

  lemma SweptComma(s: seq<Scalar>, now: seq<Scalar>, index: nat)
    requires Swept(s, now, index) && index < |s| && TrailingComma(s, index)
    ensures Swept(s, now[index := SPACE], index + 1)
  {
    hide TrailingComma;
  }

  lemma NotPlain(s: seq<Scalar>, k: nat)
    requires k < |s| && (Kinds(s, false)[k] != Plain || s[k] != COMMA)
    ensures !TrailingComma(s, k)
  {
    hide Kinds;
  }

  /** The pass is inside a string, or between tokens. */
  ghost predicate Reading(s: seq<Scalar>, start: nat, index: nat, inString: bool, escaped: bool) {
    && start <= index <= |s| && Kinds(s, false)[start..] == Kinds(s[start..], false)
    && if inString then InsideString(s[start..], index - start, escaped) else start == index && !escaped
  }

  lemma QuotedHere(s: seq<Scalar>, start: nat, index: nat, escaped: bool)
    requires Reading(s, start, index, true, escaped) && index < |s|
    ensures !TrailingComma(s, index)
  {
    hide Kinds, InsideString, TrailingComma;
    StringReaches(s[start..], index - start, escaped, false);
    KindsInside(s, start, TokenLength(s[start..], false));
    NotPlain(s, index);
  }

  lemma ReadsOn(s: seq<Scalar>, start: nat, index: nat, escaped: bool)
    requires Reading(s, start, index, true, escaped) && index < |s| && (escaped || s[index] != QUOTE)
    ensures Reading(s, start, index + 1, true, !escaped && s[index] == BACKSLASH)
  {
    hide Kinds, InsideString;
    StringGoesOn(s[start..], index - start, escaped);
  }

  lemma StringDone(s: seq<Scalar>, start: nat, index: nat)
    requires Reading(s, start, index, true, false) && index < |s| && s[index] == QUOTE
    ensures Reading(s, index + 1, index + 1, false, false)
  {
    hide Kinds, InsideString;
    StringCloses(s[start..], index - start, false);
    KindsInside(s, start, index + 1 - start);
  }

  lemma StringStarts(s: seq<Scalar>, index: nat)
    requires Reading(s, index, index, false, false) && index < |s| && s[index] == QUOTE
    ensures Reading(s, index, index + 1, true, false)
  {
    hide Kinds, InsideString;
    StringOpens(s[index..]);
  }

  lemma PlainHere(s: seq<Scalar>, index: nat)
    requires Reading(s, index, index, false, false) && index < |s| && s[index] != QUOTE
    ensures Kinds(s, false)[index] == Plain && Reading(s, index + 1, index + 1, false, false)
  {
    hide Kinds, InsideString;
    KindsInside(s, index, 1);
  }

  lemma ReadingStarts(s: seq<Scalar>)
    ensures Reading(s, 0, 0, false, false)
  {
    assert s[0..] == s;
  }

  /** Blank every trailing comma in place.  What lies ahead of the index is not yet written over, so the look
      ahead reads the source, and earlier writes never change what a later comma is. */
  method StripTrailingCommas(chars: array<Scalar>)
    modifies chars
    ensures chars[..] == Uncomma(old(chars[..]))
  {
    hide Kinds, Uncomma, Reading, Swept, TrailingComma;
    ghost var s := chars[..];
    ghost var start := 0;
    var index, inString, escaped := 0, false, false;
    ReadingStarts(s);
    SweptFrom(s);
    while index < chars.Length
      invariant 0 <= index <= chars.Length == |s|
      invariant Reading(s, start, index, inString, escaped) && (!inString ==> start == index && !escaped)
      invariant Swept(s, chars[..], index)
    {
      SweptAhead(s, chars[..], index);
      var c := chars[index];
      if inString {
        QuotedHere(s, start, index, escaped);
        SweptOver(s, chars[..], index);
        if escaped {
          ReadsOn(s, start, index, true);
          escaped := false;
        } else if c == BACKSLASH {
          ReadsOn(s, start, index, false);
          escaped := true;
        } else if c == QUOTE {
          StringDone(s, start, index);
          inString, start := false, index + 1;
        } else {
          ReadsOn(s, start, index, false);
        }
        index := index + 1;
      } else if c == QUOTE {
        StringStarts(s, index);
        NotPlain(s, index);
        SweptOver(s, chars[..], index);
        inString := true;
        index := index + 1;
      } else {
        PlainHere(s, index);
        if c == COMMA {
          var next := index + 1;
          while next < chars.Length && IsWhitespace(chars[next])
            invariant index < next <= |s| && BlankBetween(s, index, next)
            modifies {}
          {
            assert chars[..][next] == s[next];
            next := next + 1;
          }
          assert next < |s| ==> chars[..][next] == s[next];
          CommaAt(s, index, next);
          if next < chars.Length && IsCloser(chars[next]) {
            SweptComma(s, chars[..], index);
            chars[index] := SPACE;
          } else {
            SweptOver(s, chars[..], index);
          }
        } else {
          NotPlain(s, index);
          SweptOver(s, chars[..], index);
        }
        index := index + 1;
        start := index;
      }
    }
    SweptAll(s, chars[..]);
  }

  lemma SweptFrom(s: seq<Scalar>)
    ensures Swept(s, s, 0)
  {
  }

  lemma SweptAhead(s: seq<Scalar>, now: seq<Scalar>, index: nat)
    requires Swept(s, now, index)
    ensures forall k :: index <= k < |s| ==> now[k] == s[k]
  {
  }

  lemma SweptAll(s: seq<Scalar>, now: seq<Scalar>)
    requires Swept(s, now, |s|)
    ensures now == Uncomma(s)
  {
    hide TrailingComma;
  }

  /** Normalize JSONC to JSON of the same bytes. */
  method Normalize(source: seq<Scalar>) returns (normalized: seq<Scalar>)
    ensures normalized == Normalized(source)
  {
    hide Blanked, Uncomma;
    var withoutComments := StripComments(source);
    var chars := new Scalar[|withoutComments|](i requires 0 <= i < |withoutComments| => withoutComments[i]);
    assert chars[..] == withoutComments;
    StripTrailingCommas(chars);
    normalized := chars[..];
  }
}
