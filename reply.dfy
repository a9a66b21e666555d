/** Classification of the caster's first reply chunk (NTRipClient.ParseReply).
    Each of the three regular expressions is anchored at the start, ends in
    ".*" and is matched with IgnoreCase, so each is a case-insensitive prefix
    test. */
module Reply {
  import opened Ascii

  datatype Response = Icy200Ok | Http401Unauthorized | SourceTable200 | Unexpected

  /** The patterns, written as text in which '#' stands for the class \d
      (none of them contains a literal '#'). */
  const IcyPattern := "ICY 200"                  // ^ICY 200.*
  const HttpPattern := "HTTP/1.# 401"            // ^HTTP/1\.\d 401.*
  const SourceTablePattern := "SOURCETABLE 200"  // ^SOURCETABLE 200.*

  /** ASCII lower-casing of a character. */
  function FoldChar(c: char): char
  {
    if 'A' <= c <= 'Z' then (c as int + 32) as char else c
  }

  /** Does input character c match pattern position pc? */
  predicate CharMatches(pc: char, c: char)
  {
    if pc == '#' then IsDigitChar(c) else FoldChar(c) == FoldChar(pc)
  }

  /** Encoding.UTF8.GetString, as far as the classification can tell: an
      ASCII byte is its character; every byte of a multi-byte sequence or an
      invalid one stands for a character outside ASCII, which no pattern
      position accepts. */
  function ReplyText(reply: seq<byte>): (s: string)
    ensures |s| == |reply|
  {
    seq(|reply|, i requires 0 <= i < |reply| =>
      if reply[i] < 0x80 then reply[i] as int as char else '\U{FFFD}')
  }

  /** The matcher: compares positions i, i+1, ... of pattern and input. */
  function MatchFrom(s: string, p: string, i: nat): bool
    decreases |p| - i
  {
    if i >= |p| then true
    else if i >= |s| then false
    else CharMatches(p[i], s[i]) && MatchFrom(s, p, i + 1)
  }

  /** Reference meaning of a prefix match: the input is at least as long as
      the pattern and agrees with it position by position. */
  ghost predicate HasPrefix(s: string, p: string)
  {
    |p| <= |s| && forall i :: 0 <= i < |p| ==> CharMatches(p[i], s[i])
  }

  lemma {:induction false} MatchFromMeans(s: string, p: string, i: nat)
    requires i <= |p| <= |s|
    ensures MatchFrom(s, p, i) <==> forall j :: i <= j < |p| ==> CharMatches(p[j], s[j])
    decreases |p| - i
  {
    if i < |p| {
      MatchFromMeans(s, p, i + 1);
    }
  }

  /** An input shorter than the pattern never matches. */
  lemma {:induction false} MatchFromShort(s: string, p: string, i: nat)
    requires i <= |s| < |p|
    ensures !MatchFrom(s, p, i)
    decreases |s| - i
  {
    if i < |s| {
      MatchFromShort(s, p, i + 1);
    }
  }

  lemma MatchesExactly(s: string, p: string)
    ensures MatchFrom(s, p, 0) <==> HasPrefix(s, p)
  {
    if |p| <= |s| {
      MatchFromMeans(s, p, 0);
    } else {
      MatchFromShort(s, p, 0);
    }
  }

  /** What a match of each pattern says about the first character. */
  lemma FirstLetters(s: string)
    ensures HasPrefix(s, IcyPattern) ==> |s| > 0 && FoldChar(s[0]) == 'i'
    ensures HasPrefix(s, HttpPattern) ==> |s| > 0 && FoldChar(s[0]) == 'h'
    ensures HasPrefix(s, SourceTablePattern) ==> |s| > 0 && FoldChar(s[0]) == 's'
  {
    if HasPrefix(s, IcyPattern) {
      assert CharMatches(IcyPattern[0], s[0]);
    }
    if HasPrefix(s, HttpPattern) {
      assert CharMatches(HttpPattern[0], s[0]);
    }
    if HasPrefix(s, SourceTablePattern) {
      assert CharMatches(SourceTablePattern[0], s[0]);
    }
  }

  /** The three IsMatch tests of NTRipClient.ParseReply, in order, on the
      decoded text. */
  function Classify(content: string): Response
  {
    if MatchFrom(content, IcyPattern, 0) then Icy200Ok
    else if MatchFrom(content, HttpPattern, 0) then Http401Unauthorized
    else if MatchFrom(content, SourceTablePattern, 0) then SourceTable200
    else Unexpected
  }

  /** NTRipClient.ParseReply(reply, replyLength), given reply[..replyLength]. */
  function ParseReply(reply: seq<byte>): Response
  {
    Classify(ReplyText(reply))
  }

  /** Classify is total and its answer does not depend on the order of the
      tests: each class holds exactly when its own pattern matches, because
      the three patterns start with 'I', 'H' and 'S' and so never match the
      same text. */
  lemma ClassifyMeaning(content: string)
    ensures Classify(content) == Icy200Ok <==> HasPrefix(content, IcyPattern)
    ensures Classify(content) == Http401Unauthorized <==> HasPrefix(content, HttpPattern)
    ensures Classify(content) == SourceTable200 <==> HasPrefix(content, SourceTablePattern)
    ensures Classify(content) == Unexpected <==>
      !HasPrefix(content, IcyPattern) && !HasPrefix(content, HttpPattern) &&
      !HasPrefix(content, SourceTablePattern)
  {
    MatchesExactly(content, IcyPattern);
    MatchesExactly(content, HttpPattern);
    MatchesExactly(content, SourceTablePattern);
    FirstLetters(content);
  }

  /** Only the first characters decide a match: whatever follows the status
      line (the ".*" of each expression) is irrelevant. */
  lemma ClassifyIgnoresTail(content: string, rest: string)
    requires |content| >= |SourceTablePattern|
    ensures Classify(content + rest) == Classify(content)
  {
    ClassifyMeaning(content);
    ClassifyMeaning(content + rest);
    assert forall i :: 0 <= i < |content| ==> (content + rest)[i] == content[i];
  }

  /** An ASCII reply is classified on its own text. */
  lemma AsciiReply(s: string)
    requires forall i :: 0 <= i < |s| ==> s[i] as int < 128
    ensures ParseReply(AsciiBytes(s)) == Classify(s)
  {
    forall i | 0 <= i < |s|
      ensures ReplyText(AsciiBytes(s))[i] == s[i]
    {
      AsciiCharByte(s[i]);
    }
    assert ReplyText(AsciiBytes(s)) == s;
  }

  /** Replies a caster sends, in any letter case. */
  lemma IcyExamples()
    ensures Classify("ICY 200 OK\r\n") == Icy200Ok
    ensures Classify("icy 200 ok") == Icy200Ok
  {
  }

  lemma UnauthorizedExamples()
    ensures Classify("HTTP/1.0 401\r\n") == Http401Unauthorized
    ensures Classify("http/1.1 401") == Http401Unauthorized
  {
    assert !MatchFrom("HTTP/1.0 401\r\n", IcyPattern, 0);
    assert MatchFrom("HTTP/1.0 401\r\n", HttpPattern, 0);
    assert !MatchFrom("http/1.1 401", IcyPattern, 0);
    assert MatchFrom("http/1.1 401", HttpPattern, 0);
  }

  lemma SourceTableExamples()
    ensures Classify("SOURCETABLE 200") == SourceTable200
    ensures Classify("SourceTable 200") == SourceTable200
  {
    SourceTableMatch("SOURCETABLE 200");
    SourceTableMatch("SourceTable 200");
  }

  /** A text of 15 letters that starts with 's' and matches the source-table
      pattern from its sixth position on is a source table. */
  lemma SourceTableMatch(s: string)
    requires |s| == 15 && FoldChar(s[0]) == 's'
    requires MatchFrom(s, SourceTablePattern, 5)
    requires forall i :: 0 <= i < 5 ==> FoldChar(s[i]) == FoldChar(SourceTablePattern[i])
    ensures Classify(s) == SourceTable200
  {
    assert !CharMatches(IcyPattern[0], s[0]);
    assert !CharMatches(HttpPattern[0], s[0]);
    assert MatchFrom(s, SourceTablePattern, 0);
  }

  /** A plain HTTP success, a minor version that is not a digit and a
      truncated greeting are all unexpected. */
  lemma UnexpectedExamples()
    ensures Classify("HTTP/1.1 200 OK\r\n") == Unexpected
    ensures Classify("HTTP/1.x 401") == Unexpected
    ensures Classify("ICY 20") == Unexpected
    ensures Classify("") == Unexpected
  {
  }
}
