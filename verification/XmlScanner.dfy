/**
 The tag scanner: a loop over characters with flags for comment, tag and quote, against a reference lexer that
 splits a document into comments, tags and text. A document is the characters before the terminator.
 */
module XmlScanner {
  import opened Wrappers
  import opened XmlNames

  const COMMENT_START: string := "<!--"
  const COMMENT_END: string := "-->"

  // ---------------------------------------------------------------- reference lexer

  /** Behind the end of the comment whose text continues at i. */
  function CommentEnd(s: string, i: nat): (r: nat)
    requires i <= |s|
    ensures i <= r <= |s|
    decreases |s| - i
  {
    if i == |s| then i
    else if Stands(s, i, COMMENT_END) then i + 3
    else CommentEnd(s, i + 1)
  }

  /** Behind the end of the tag whose text continues at i, perhaps within a quote; comments are skipped. */
  function TagEnd(s: string, i: nat, quote: Option<char>): (r: Option<nat>)
    requires i <= |s|
    ensures r.Some? ==> i < r.value <= |s| && s[r.value - 1] == '>'
    decreases |s| - i
  {
    if i == |s| then None
    else if Stands(s, i, COMMENT_START) then TagEnd(s, CommentEnd(s, i + 4), quote)
    else if quote.Some? then TagEnd(s, i + 1, if s[i] == quote.value then None else quote)
    else if s[i] == '>' then Some(i + 1)
    else TagEnd(s, i + 1, if s[i] == '"' || s[i] == '\'' then Some(s[i]) else None)
  }

  datatype Token =
    | Comment(start: nat, end: nat)
    | Tag(start: nat, end: nat)
    | Unclosed(start: nat, end: nat)
    | Text(start: nat, end: nat)

  /** The token that starts at i. */
  function TokenAt(s: string, i: nat): (t: Token)
    requires i < |s|
    ensures t.start == i < t.end <= |s|
    ensures t.Tag? ==> s[i] == '<' && s[t.end - 1] == '>' && i + 2 <= t.end && !Stands(s, i, COMMENT_START)
    ensures t.Comment? <==> Stands(s, i, COMMENT_START)
  {
    if Stands(s, i, COMMENT_START) then Comment(i, CommentEnd(s, i + 4))
    else if s[i] == '<' then
      var end := TagEnd(s, i + 1, None);
      if end.Some? then Tag(i, end.value) else Unclosed(i, |s|)
    else Text(i, i + 1)
  }

  ghost predicate StartsComment(s: string, i: nat) {
    i + 4 <= |s| && s[i] == '<' && s[i + 1] == '!' && s[i + 2] == '-' && s[i + 3] == '-'
  }

  ghost predicate EndsComment(s: string, i: nat) {
    i + 3 <= |s| && s[i] == '-' && s[i + 1] == '-' && s[i + 2] == '>'
  }

  lemma MarksSpelled(s: string, i: nat)
    ensures Stands(s, i, COMMENT_START) <==> StartsComment(s, i)
    ensures Stands(s, i, COMMENT_END) <==> EndsComment(s, i)
  {
    if i + 3 <= |s| {
      assert s[i + 0] == s[i];
      LowerSpelled(s[i], '-');
      LowerSpelled(s[i + 1], '-');
      LowerSpelled(s[i + 2], '>');
      assert Stands(s, i, COMMENT_END) ==> LowerChar(s[i + 0]) == LowerChar(COMMENT_END[0]);
      assert Stands(s, i, COMMENT_END) ==> LowerChar(s[i + 1]) == LowerChar(COMMENT_END[1]);
      assert Stands(s, i, COMMENT_END) ==> LowerChar(s[i + 2]) == LowerChar(COMMENT_END[2]);
    }
    if i + 4 <= |s| {
      LowerSpelled(s[i], '<');
      LowerSpelled(s[i + 1], '!');
      LowerSpelled(s[i + 2], '-');
      LowerSpelled(s[i + 3], '-');
      assert Stands(s, i, COMMENT_START) ==> LowerChar(s[i + 0]) == LowerChar(COMMENT_START[0]);
      assert Stands(s, i, COMMENT_START) ==> LowerChar(s[i + 1]) == LowerChar(COMMENT_START[1]);
      assert Stands(s, i, COMMENT_START) ==> LowerChar(s[i + 2]) == LowerChar(COMMENT_START[2]);
      assert Stands(s, i, COMMENT_START) ==> LowerChar(s[i + 3]) == LowerChar(COMMENT_START[3]);
    }
  }

  /** A comment starts exactly at its mark, and ends behind the first end mark that follows, or with the document. */
  lemma CommentExact(s: string, i: nat)
    requires i < |s|
    ensures var t := TokenAt(s, i);
            && (t.Comment? <==> StartsComment(s, i))
            && (t.Comment? ==>
                  && (t.end == |s| || (t.end >= i + 7 && EndsComment(s, t.end - 3)))
                  && forall k: nat :: i + 4 <= k && EndsComment(s, k) ==> i + 7 <= t.end <= k + 3)
  {
    hide Stands, StartsComment, EndsComment, TagEnd;
    MarksSpelled(s, i);
    if Stands(s, i, COMMENT_START) {
      StandsFits(s, i, COMMENT_START);
      CommentEndExact(s, i + 4);
    }
  }

  lemma {:induction false} CommentEndExact(s: string, i: nat)
    requires i <= |s|
    ensures var e := CommentEnd(s, i);
            && (e == |s| || (e >= i + 3 && EndsComment(s, e - 3)))
            && forall k: nat :: i <= k && EndsComment(s, k) ==> i + 3 <= e <= k + 3
    decreases |s| - i
  {
    hide Stands;
    if i < |s| {
      MarksSpelled(s, i);
      if !Stands(s, i, COMMENT_END) {
        CommentEndExact(s, i + 1);
      }
    }
  }

  function Tokens(s: string, i: nat): seq<Token>
    requires i <= |s|
    decreases |s| - i
  {
    if i == |s| then [] else [TokenAt(s, i)] + Tokens(s, TokenAt(s, i).end)
  }

  /** Tokens that follow one another from i to `end` without a gap. */
  ghost predicate Tile(s: string, tokens: seq<Token>, i: nat, end: nat) {
    && (tokens == [] <==> i == end)
    && (tokens != [] ==> tokens[0].start == i && tokens[|tokens| - 1].end == end)
    && (forall k :: 0 <= k < |tokens| ==> IsTokenOf(s, tokens[k]))
    && (forall k :: 0 <= k < |tokens| - 1 ==> tokens[k].end == tokens[k + 1].start)
  }

  ghost predicate IsTokenOf(s: string, t: Token) {
    t.start < |s| && t == TokenAt(s, t.start)
  }

  lemma TileStep(s: string, t: Token, rest: seq<Token>, i: nat, end: nat)
    requires Tile(s, rest, t.end, end) && IsTokenOf(s, t) && t.start == i && i < end
    ensures Tile(s, [t] + rest, i, end)
  {
    hide IsTokenOf;
    var all := [t] + rest;
    forall k | 0 <= k < |all| ensures IsTokenOf(s, all[k]) {
    }
    forall k | 0 <= k < |all| - 1 ensures all[k].end == all[k + 1].start {
      if k > 0 {
        assert all[k] == rest[k - 1] && all[k + 1] == rest[k];
      }
    }
  }

  /** The tokens tile the document from i to its end, so tags overlap neither comments nor other tags. */
  lemma {:induction false} TokensTile(s: string, i: nat)
    requires i <= |s|
    ensures Tile(s, Tokens(s, i), i, |s|)
    decreases |s| - i
  {
    hide TokenAt;
    if i < |s| {
      var t := TokenAt(s, i);
      TokensTile(s, t.end);
      hide Tile;
      TileStep(s, t, Tokens(s, t.end), i, |s|);
    }
  }

  lemma {:induction false} TokensFrom(s: string, i: nat, k: nat)
    requires i <= |s| && k < |Tokens(s, i)|
    ensures Tokens(s, i)[k].end <= |s| && Tokens(s, i)[k + 1..] == Tokens(s, Tokens(s, i)[k].end)
    decreases k
  {
    hide TokenAt;
    if k > 0 {
      var next := TokenAt(s, i).end;
      assert Tokens(s, i)[k] == Tokens(s, next)[k - 1];
      assert Tokens(s, i)[k + 1..] == Tokens(s, next)[k..];
      TokensFrom(s, next, k - 1);
    }
  }

  // ---------------------------------------------------------------- a lexer that knows comments only outside tags

  /** The quote that is open behind a character of a tag. */
  function NextQuote(c: char, quote: Option<char>): Option<char> {
    if quote.Some? then (if c == quote.value then None else quote)
    else if c == '"' || c == '\'' then Some(c)
    else None
  }

  /** Behind the end of the tag whose text continues at i: the first closing bracket outside quotes. */
  function PlainTagEnd(s: string, i: nat, quote: Option<char>): (r: Option<nat>)
    requires i <= |s|
    ensures r.Some? ==> i < r.value <= |s| && s[r.value - 1] == '>'
    decreases |s| - i
  {
    if i == |s| then None
    else if quote.None? && s[i] == '>' then Some(i + 1)
    else PlainTagEnd(s, i + 1, NextQuote(s[i], quote))
  }

  function PlainTokenAt(s: string, i: nat): (t: Token)
    requires i < |s|
    ensures t.start == i < t.end <= |s|
  {
    if Stands(s, i, COMMENT_START) then Comment(i, CommentEnd(s, i + 4))
    else if s[i] == '<' then
      var end := PlainTagEnd(s, i + 1, None);
      if end.Some? then Tag(i, end.value) else Unclosed(i, |s|)
    else Text(i, i + 1)
  }

  function PlainTokens(s: string, i: nat): seq<Token>
    requires i <= |s|
    decreases |s| - i
  {
    if i == |s| then [] else [PlainTokenAt(s, i)] + PlainTokens(s, PlainTokenAt(s, i).end)
  }

  /** No comment starts within [from, to). */
  predicate NoComment(s: string, from: nat, to: nat) {
    forall k: nat :: from <= k < to ==> !Stands(s, k, COMMENT_START)
  }

  /** Where a tag ends for the plain lexer, or the end of the document. */
  function TagLimit(s: string, i: nat, quote: Option<char>): (r: nat)
    requires i <= |s|
    ensures i <= r <= |s|
  {
    var end := PlainTagEnd(s, i, quote);
    if end.Some? then end.value else |s|
  }

  lemma {:induction false} CleanTagAgrees(s: string, i: nat, quote: Option<char>)
    requires i <= |s| && NoComment(s, i, TagLimit(s, i, quote))
    ensures TagEnd(s, i, quote) == PlainTagEnd(s, i, quote)
    decreases |s| - i
  {
    hide Stands, CommentEnd;
    if i < |s| {
      assert !Stands(s, i, COMMENT_START);
      if !(quote.None? && s[i] == '>') {
        CleanTagAgrees(s, i + 1, NextQuote(s[i], quote));
      }
    }
  }

  /** Both lexers end this tag at the same place. */
  predicate TagAgrees(s: string, t: Token) {
    (t.Tag? || t.Unclosed?) && t.start < |s| ==> TagEnd(s, t.start + 1, None) == PlainTagEnd(s, t.start + 1, None)
  }

  /** The lexers agree on a document exactly when they agree on every tag. */
  lemma {:induction false} LexersAgree(s: string, i: nat)
    requires i <= |s|
    ensures Tokens(s, i) == PlainTokens(s, i) <==> forall t :: t in PlainTokens(s, i) ==> TagAgrees(s, t)
    decreases |s| - i
  {
    hide TagEnd, PlainTagEnd, CommentEnd, Stands;
    if i < |s| {
      var t, u := TokenAt(s, i), PlainTokenAt(s, i);
      TokenAgrees(s, i);
      LexersAgree(s, u.end);
      assert PlainTokens(s, i) == [u] + PlainTokens(s, u.end);
      if Tokens(s, i) == PlainTokens(s, i) {
        assert Tokens(s, i)[0] == t && PlainTokens(s, i)[0] == u;
        assert Tokens(s, i)[1..] == Tokens(s, t.end) && PlainTokens(s, i)[1..] == PlainTokens(s, u.end);
      }
      if forall v :: v in PlainTokens(s, i) ==> TagAgrees(s, v) {
        assert u in PlainTokens(s, i);
        assert forall v :: v in PlainTokens(s, u.end) ==> v in PlainTokens(s, i);
      }
    }
  }

  lemma TokenAgrees(s: string, i: nat)
    requires i < |s|
    ensures TokenAt(s, i) == PlainTokenAt(s, i) <==> TagAgrees(s, PlainTokenAt(s, i))
  {
    hide TagEnd, PlainTagEnd, CommentEnd, Stands;
  }

  /** No comment starts inside a tag. */
  ghost predicate CleanTags(s: string, i: nat)
    requires i <= |s|
  {
    forall t :: t in PlainTokens(s, i) && (t.Tag? || t.Unclosed?) ==> NoComment(s, t.start + 1, t.end)
  }

  /** Then both lexers give the same tokens. */
  lemma CleanTagsAgree(s: string, i: nat)
    requires i <= |s| && CleanTags(s, i)
    ensures Tokens(s, i) == PlainTokens(s, i)
  {
    hide TagEnd, PlainTagEnd, NoComment, Tokens;
    LexersAgree(s, i);
    forall t | t in PlainTokens(s, i) ensures TagAgrees(s, t) {
      if t.Tag? || t.Unclosed? {
        PlainTokenOf(s, i, t);
        TagTokenLimit(s, t);
        CleanTagAgrees(s, t.start + 1, None);
      }
    }
  }

  lemma {:induction false} PlainTokenOf(s: string, i: nat, t: Token)
    requires i <= |s| && t in PlainTokens(s, i)
    ensures t.start < |s| && t == PlainTokenAt(s, t.start)
    decreases |s| - i
  {
    hide PlainTokenAt;
    if t != PlainTokenAt(s, i) {
      PlainTokenOf(s, PlainTokenAt(s, i).end, t);
    }
  }

  lemma TagTokenLimit(s: string, t: Token)
    requires t.start < |s| && t == PlainTokenAt(s, t.start) && (t.Tag? || t.Unclosed?)
    ensures TagLimit(s, t.start + 1, None) == t.end
  {
    hide PlainTagEnd;
  }

  // What a comment inside a tag does.

  /** The quote that is open at e for the plain lexer, if the tag has not ended by then. */
  function QuoteAt(s: string, i: nat, e: nat, quote: Option<char>): Option<Option<char>>
    requires i <= e <= |s|
    decreases e - i
  {
    if i == e then Some(quote)
    else if quote.None? && s[i] == '>' then None
    else QuoteAt(s, i + 1, e, NextQuote(s[i], quote))
  }

  lemma {:induction false} PlainEndFrom(s: string, i: nat, e: nat, quote: Option<char>)
    requires i <= e <= |s|
    ensures var q := QuoteAt(s, i, e, quote);
            var end := PlainTagEnd(s, i, quote);
            if q.Some? then end == PlainTagEnd(s, e, q.value) else end.Some? && end.value <= e
    decreases e - i
  {
    if i < e && !(quote.None? && s[i] == '>') {
      PlainEndFrom(s, i + 1, e, NextQuote(s[i], quote));
    }
  }

  lemma {:induction false} CodeEndFrom(s: string, i: nat, e: nat, quote: Option<char>)
    requires i <= e <= |s| && NoComment(s, i, e) && QuoteAt(s, i, e, quote).Some?
    ensures TagEnd(s, i, quote) == TagEnd(s, e, QuoteAt(s, i, e, quote).value)
    decreases e - i
  {
    hide Stands, CommentEnd;
    if i < e {
      assert !Stands(s, i, COMMENT_START);
      CodeEndFrom(s, i + 1, e, NextQuote(s[i], quote));
    }
  }

  predicate IsQuote(q: Option<char>) {
    q.Some? ==> q.value == '"' || q.value == '\''
  }

  /** Each character permutes the quote states, so two different states never end a tag at the same place. */
  lemma {:induction false} StatesNeverMeet(s: string, i: nat, q: Option<char>, r: Option<char>)
    requires i <= |s| && IsQuote(q) && IsQuote(r) && q != r
    ensures PlainTagEnd(s, i, q) == PlainTagEnd(s, i, r) ==> PlainTagEnd(s, i, q) == None
    decreases |s| - i
  {
    if i < |s| {
      StatesNeverMeet(s, i + 1, NextQuote(s[i], q), NextQuote(s[i], r));
    }
  }

  lemma {:induction false} QuoteAtIsQuote(s: string, i: nat, e: nat, quote: Option<char>)
    requires i <= e <= |s| && IsQuote(quote) && QuoteAt(s, i, e, quote).Some?
    ensures IsQuote(QuoteAt(s, i, e, quote).value)
    decreases e - i
  {
    if i < e {
      QuoteAtIsQuote(s, i + 1, e, NextQuote(s[i], quote));
    }
  }

  /** The quote that is open at e for the code, which skips comments, if it comes to e within the tag. */
  function CodeQuoteAt(s: string, i: nat, e: nat, quote: Option<char>): Option<Option<char>>
    requires i <= |s|
    decreases |s| - i
  {
    if i == e then Some(quote)
    else if i > e || i == |s| then None
    else if Stands(s, i, COMMENT_START) then CodeQuoteAt(s, CommentEnd(s, i + 4), e, quote)
    else if quote.None? && s[i] == '>' then None
    else CodeQuoteAt(s, i + 1, e, NextQuote(s[i], quote))
  }

  lemma {:induction false} CodeComesTo(s: string, i: nat, e: nat, quote: Option<char>)
    requires i <= |s| && IsQuote(quote) && CodeQuoteAt(s, i, e, quote).Some?
    ensures var q := CodeQuoteAt(s, i, e, quote).value;
            i <= e <= |s| && IsQuote(q) && TagEnd(s, i, quote) == TagEnd(s, e, q)
    decreases |s| - i
  {
    hide Stands, CommentEnd;
    if i < e {
      if Stands(s, i, COMMENT_START) {
        StandsFits(s, i, COMMENT_START);
        CodeComesTo(s, CommentEnd(s, i + 4), e, quote);
      } else {
        CodeComesTo(s, i + 1, e, NextQuote(s[i], quote));
      }
    }
  }

  /**
   Wherever the code comes to in a tag with no comment start left before the tag's end, both lexers end the tag at the
   same place exactly when they are there with the same quote open, or when neither ends it.
   */
  lemma TagEndsExact(s: string, i: nat, e: nat)
    requires i <= e <= |s| && CodeQuoteAt(s, i, e, None).Some?
    requires NoComment(s, e, TagLimit(s, e, CodeQuoteAt(s, i, e, None).value))
    ensures TagEnd(s, i, None) == PlainTagEnd(s, i, None)
       <==> || QuoteAt(s, i, e, None) == CodeQuoteAt(s, i, e, None)
            || (TagEnd(s, i, None) == None && PlainTagEnd(s, i, None) == None)
  {
    hide TagEnd, PlainTagEnd, QuoteAt, CodeQuoteAt, Stands, CommentEnd, NoComment, TagLimit;
    var q, p := CodeQuoteAt(s, i, e, None).value, QuoteAt(s, i, e, None);
    CodeComesTo(s, i, e, None);
    CleanTagAgrees(s, e, q);
    PlainEndFrom(s, i, e, None);
    if p.Some? && p.value != q {
      QuoteAtIsQuote(s, i, e, None);
      StatesNeverMeet(s, e, q, p.value);
    }
  }

  /** Where the code goes on behind the last comment that it skips in a tag, or where it began. */
  function Resume(s: string, i: nat, quote: Option<char>): (e: nat)
    requires i <= |s|
    ensures i <= e <= |s|
    decreases |s| - i
  {
    if NoComment(s, i, TagLimit(s, i, quote)) || i == |s| then i
    else if Stands(s, i, COMMENT_START) then Resume(s, CommentEnd(s, i + 4), quote)
    else Resume(s, i + 1, NextQuote(s[i], quote))
  }

  lemma {:induction false} ResumeIsReached(s: string, i: nat, quote: Option<char>)
    requires i <= |s| && IsQuote(quote)
    ensures var q := CodeQuoteAt(s, i, Resume(s, i, quote), quote);
            q.Some? && NoComment(s, Resume(s, i, quote), TagLimit(s, Resume(s, i, quote), q.value))
    decreases |s| - i
  {
    hide CommentEnd, Stands;
    if !NoComment(s, i, TagLimit(s, i, quote)) {
      if Stands(s, i, COMMENT_START) {
        StandsFits(s, i, COMMENT_START);
        ResumeIsReached(s, CommentEnd(s, i + 4), quote);
      } else {
        if s[i] == '>' {
          BracketStartsNothing(s, i);
        }
        ResumeIsReached(s, i + 1, NextQuote(s[i], quote));
      }
    }
  }

  lemma BracketStartsNothing(s: string, i: nat)
    requires i < |s| && s[i] == '>'
    ensures !Stands(s, i, COMMENT_START)
  {
    assert LowerChar(s[i + 0]) != LowerChar(COMMENT_START[0]);
  }

  /**
   The code ends a tag where the plain lexer does exactly when the plain lexer, behind the last comment that the code
   skips in the tag, is still in the tag with the code's quote open, or when neither ends the tag at all.
   */
  lemma CommentInTagExact(s: string, i: nat)
    requires i <= |s|
    ensures var e := Resume(s, i, None);
            TagEnd(s, i, None) == PlainTagEnd(s, i, None)
            <==> || QuoteAt(s, i, e, None) == CodeQuoteAt(s, i, e, None)
                 || (TagEnd(s, i, None) == None && PlainTagEnd(s, i, None) == None)
  {
    hide TagEnd, PlainTagEnd, QuoteAt, CodeQuoteAt, Stands, CommentEnd, NoComment, TagLimit, Resume;
    ResumeIsReached(s, i, None);
    TagEndsExact(s, i, Resume(s, i, None));
  }

  lemma CommentSkipped(s: string, k: nat, q: Option<char>)
    requires k + 4 <= |s| && Stands(s, k, COMMENT_START)
    ensures TagEnd(s, k, q) == TagEnd(s, CommentEnd(s, k + 4), q)
  {
    hide Stands, CommentEnd;
  }

  /** If the last comment skipped is closed and outside quotes, it makes a difference unless the tag never ends. */
  lemma UnquotedDiffers(s: string, i: nat)
    requires i <= |s| && i < Resume(s, i, None) && s[Resume(s, i, None) - 1] == '>'
    requires CodeQuoteAt(s, i, Resume(s, i, None), None) == Some(None)
    ensures TagEnd(s, i, None) == PlainTagEnd(s, i, None)
       <==> TagEnd(s, i, None) == None && PlainTagEnd(s, i, None) == None
  {
    hide TagEnd, PlainTagEnd, QuoteAt, CodeQuoteAt, CommentEnd, NoComment, TagLimit, Resume;
    CommentInTagExact(s, i);
    BracketLast(s, i, Resume(s, i, None), None);
  }

  /** Behind a closing bracket the tag has ended or a quote is open. */
  lemma {:induction false} BracketLast(s: string, i: nat, e: nat, quote: Option<char>)
    requires i < e <= |s| && s[e - 1] == '>' && IsQuote(quote)
    ensures QuoteAt(s, i, e, quote) != Some(None)
    decreases e - i
  {
    if i + 1 < e {
      BracketLast(s, i + 1, e, NextQuote(s[i], quote));
    } else {
      assert QuoteAt(s, e, e, NextQuote(s[i], quote)) == Some(NextQuote(s[i], quote));
    }
  }

  /** A quoted comment start hides the next element from the code. */
  const HIDDEN: string := "<a b=\"<!--\"><c>"

  lemma NoDashes(k: nat)
    requires 10 <= k < 15
    ensures !Stands(HIDDEN, k, COMMENT_END)
  {
    assert LowerChar(HIDDEN[k + 0]) != LowerChar(COMMENT_END[0]);
  }

  lemma OnlyOneStart(k: nat)
    requires k < 15 && k != 6
    ensures !Stands(HIDDEN, k, COMMENT_START)
  {
    if k < 14 {
      assert || LowerChar(HIDDEN[k + 0]) != LowerChar(COMMENT_START[0])
             || LowerChar(HIDDEN[k + 1]) != LowerChar(COMMENT_START[1]);
    }
  }

  lemma HiddenQuote()
    ensures QuoteAt(HIDDEN, 1, 6, None) == Some(Some('"'))
  {
    var h := HIDDEN;
    assert QuoteAt(h, 5, 6, None) == QuoteAt(h, 6, 6, Some('"'));
    assert QuoteAt(h, 3, 6, None) == QuoteAt(h, 4, 6, None) == QuoteAt(h, 5, 6, None);
  }

  lemma HiddenEnds()
    ensures PlainTagEnd(HIDDEN, 6, Some('"')) == Some(12)
    ensures PlainTagEnd(HIDDEN, 13, None) == Some(15)
  {
    var h := HIDDEN;
    assert PlainTagEnd(h, 11, None) == Some(12) == PlainTagEnd(h, 10, Some('"'));
    assert PlainTagEnd(h, 8, Some('"')) == PlainTagEnd(h, 9, Some('"')) == PlainTagEnd(h, 10, Some('"'));
  }

  lemma HiddenComment()
    ensures Stands(HIDDEN, 6, COMMENT_START) && CommentEnd(HIDDEN, 10) == 15
  {
    hide Stands;
    NoDashes(10);
    NoDashes(11);
    NoDashes(12);
    NoDashes(13);
    NoDashes(14);
    assert CommentEnd(HIDDEN, 13) == CommentEnd(HIDDEN, 14) == CommentEnd(HIDDEN, 15) == 15;
    assert CommentEnd(HIDDEN, 11) == CommentEnd(HIDDEN, 12) == CommentEnd(HIDDEN, 13);
    StartStands();
  }

  lemma StartStands()
    ensures Stands(HIDDEN, 6, COMMENT_START)
  {
  }

  /** The plain lexer finds both tags; for the code the first one never ends, so the second is not found. */
  lemma QuotedCommentHides()
    ensures PlainTokens(HIDDEN, 0) == [Tag(0, 12), Tag(12, 15)]
    ensures Tokens(HIDDEN, 0) == [Unclosed(0, 15)]
  {
    hide Stands, CommentEnd, PlainTagEnd, QuoteAt, NoComment;
    HiddenQuote();
    HiddenEnds();
    HiddenComment();
    OnlyOneStart(0);
    OnlyOneStart(12);
    assert NoComment(HIDDEN, 1, 6) by {
      NoEarlyStart();
    }
    CodeEndFrom(HIDDEN, 1, 6, None);
    CommentSkipped(HIDDEN, 6, Some('"'));
    PlainEndFrom(HIDDEN, 1, 6, None);
    assert PlainTokens(HIDDEN, 15) == [];
    assert PlainTokens(HIDDEN, 12) == [Tag(12, 15)];
    assert Tokens(HIDDEN, 15) == [];
  }

  lemma NoEarlyStart()
    ensures NoComment(HIDDEN, 1, 6)
  {
    hide Stands;
    forall k: nat | 1 <= k < 6 ensures !Stands(HIDDEN, k, COMMENT_START) {
      OnlyOneStart(k);
    }
  }

  // ---------------------------------------------------------------- the first tag of a name

  ghost predicate IsTag(s: string, t: Token, name: string) {
    t.Tag? && DoesTagMatch(s, t.start + 1, name)
  }

  /** Index of the first tag of that name, or the length. */
  ghost function FirstTag(s: string, tokens: seq<Token>, name: string): (r: nat)
    ensures r <= |tokens|
    ensures forall k :: 0 <= k < r ==> !IsTag(s, tokens[k], name)
    ensures r < |tokens| ==> IsTag(s, tokens[r], name)
  {
    if tokens == [] || IsTag(s, tokens[0], name) then 0 else 1 + FirstTag(s, tokens[1..], name)
  }

  ghost function TagIn(s: string, tokens: seq<Token>, name: string): Option<Token> {
    var k := FirstTag(s, tokens, name);
    if k < |tokens| then Some(tokens[k]) else None
  }

  /** What the reference makes of the rest of the document. */
  ghost function TagFrom(s: string, i: nat, name: string): Option<Token>
    requires i <= |s|
  {
    TagIn(s, Tokens(s, i), name)
  }

  /** What it makes of the rest when i is within a tag, one of that name if `start` is known. */
  ghost function TagWithin(s: string, i: nat, quote: Option<char>, start: Option<nat>, name: string): Option<Token>
    requires i <= |s|
  {
    var end := TagEnd(s, i, quote);
    if end == None then None
    else if start.Some? then Some(Tag(start.value, end.value))
    else TagFrom(s, end.value, name)
  }

  lemma TagFromStep(s: string, i: nat, name: string)
    requires i < |s|
    ensures var t := TokenAt(s, i);
            TagFrom(s, i, name) == if IsTag(s, t, name) then Some(t) else TagFrom(s, t.end, name)
  {
    hide TokenAt, IsTag;
    assert Tokens(s, i)[1..] == Tokens(s, TokenAt(s, i).end);
  }

  lemma TagFromEnd(s: string, name: string)
    ensures TagFrom(s, |s|, name) == None
  {
  }

  /** Outside comments and tags: one character of text, a comment, or the start of a tag. */
  lemma OutsideStep(s: string, i: nat, name: string)
    requires i < |s|
    ensures Stands(s, i, COMMENT_START) ==> TagFrom(s, i, name) == TagFrom(s, CommentEnd(s, i + 4), name)
    ensures !Stands(s, i, COMMENT_START) && s[i] != '<' ==> TagFrom(s, i, name) == TagFrom(s, i + 1, name)
    ensures !Stands(s, i, COMMENT_START) && s[i] == '<'
      ==> TagFrom(s, i, name)
          == TagWithin(s, i + 1, None, if DoesTagMatch(s, i + 1, name) then Some(i) else None, name)
  {
    hide Stands, TagFrom, TagEnd, CommentEnd, DoesTagMatch;
    TagFromStep(s, i, name);
    if TokenAt(s, i).Unclosed? {
      TagFromEnd(s, name);
    }
  }

  /** The scanner's flags. */
  datatype Flags = Flags(found: bool, inQuote: bool, inTag: bool, inComment: bool, quoteChar: char)

  /** What the reference makes of the rest of the document in the scanner's state. */
  ghost function Awaited(s: string, pos: nat, f: Flags, start: nat, name: string): Option<Token>
    requires pos <= |s|
  {
    var i := if f.inComment then CommentEnd(s, pos) else pos;
    if f.inTag then
      TagWithin(s, i, if f.inQuote then Some(f.quoteChar) else None, if f.found then Some(start) else None, name)
    else TagFrom(s, i, name)
  }

  lemma StandsFits(s: string, i: nat, pattern: string)
    requires Stands(s, i, pattern)
    ensures i + |pattern| <= |s|
  {
  }

  lemma CommentEndStep(s: string, i: nat)
    requires i < |s|
    ensures Stands(s, i, COMMENT_END) ==> CommentEnd(s, i) == i + 3
    ensures !Stands(s, i, COMMENT_END) ==> CommentEnd(s, i) == CommentEnd(s, i + 1)
  {
    hide Stands;
  }

  lemma WithinStep(s: string, i: nat, quote: Option<char>, start: Option<nat>, name: string)
    requires i < |s| && !Stands(s, i, COMMENT_START)
    ensures quote.Some? ==> TagWithin(s, i, quote, start, name)
                            == TagWithin(s, i + 1, if s[i] == quote.value then None else quote, start, name)
    ensures quote.None? && s[i] == '>' && start.Some?
      ==> TagWithin(s, i, quote, start, name) == Some(Tag(start.value, i + 1))
    ensures quote.None? && s[i] == '>' && start.None?
      ==> TagWithin(s, i, quote, start, name) == TagFrom(s, i + 1, name)
    ensures quote.None? && s[i] != '>'
      ==> TagWithin(s, i, quote, start, name)
          == TagWithin(s, i + 1, if s[i] == '"' || s[i] == '\'' then Some(s[i]) else None, start, name)
  {
    hide Stands, TagFrom, CommentEnd;
  }

  lemma WithinComment(s: string, i: nat, quote: Option<char>, start: Option<nat>, name: string)
    requires i < |s| && Stands(s, i, COMMENT_START)
    ensures i + 4 <= |s|
    ensures TagWithin(s, i, quote, start, name) == TagWithin(s, CommentEnd(s, i + 4), quote, start, name)
  {
    hide Stands, TagFrom, CommentEnd;
    StandsFits(s, i, COMMENT_START);
  }

  lemma AwaitedInComment(s: string, pos: nat, f: Flags, start: nat, name: string)
    requires pos < |s| && f.inComment
    ensures Stands(s, pos, COMMENT_END)
      ==> && pos + 3 <= |s|
          && Awaited(s, pos, f, start, name) == Awaited(s, pos + 3, f.(inComment := false), start, name)
    ensures !Stands(s, pos, COMMENT_END) ==> Awaited(s, pos, f, start, name) == Awaited(s, pos + 1, f, start, name)
  {
    hide Stands, TagWithin, TagFrom, CommentEnd;
    CommentEndStep(s, pos);
    if Stands(s, pos, COMMENT_END) {
      StandsFits(s, pos, COMMENT_END);
    }
  }

  lemma AwaitedAtComment(s: string, pos: nat, f: Flags, start: nat, name: string)
    requires pos < |s| && !f.inComment && Stands(s, pos, COMMENT_START)
    ensures pos + 4 <= |s|
    ensures Awaited(s, pos, f, start, name) == Awaited(s, pos + 4, f.(inComment := true), start, name)
  {
    hide Stands, TagWithin, TagFrom, CommentEnd;
    OutsideStep(s, pos, name);
    WithinComment(s, pos, if f.inQuote then Some(f.quoteChar) else None, if f.found then Some(start) else None, name);
  }

  lemma AwaitedAtStart(s: string, pos: nat, name: string)
    requires pos <= |s|
    ensures Awaited(s, pos, Flags(false, false, false, false, '\0'), 0, name) == TagFrom(s, pos, name)
  {
    hide TagFrom;
  }

  lemma AwaitedOutside(s: string, pos: nat, f: Flags, start: nat, name: string)
    requires pos < |s| && !f.inComment && !f.inTag && !f.found && !f.inQuote && !Stands(s, pos, COMMENT_START)
    ensures s[pos] != '<' ==> Awaited(s, pos, f, start, name) == Awaited(s, pos + 1, f, start, name)
    ensures s[pos] == '<'
      ==> Awaited(s, pos, f, start, name)
          == if DoesTagMatch(s, pos + 1, name) then Awaited(s, pos + 1, f.(inTag := true, found := true), pos, name)
             else Awaited(s, pos + 1, f.(inTag := true), start, name)
  {
    hide Stands, TagWithin, TagFrom, CommentEnd, DoesTagMatch;
    OutsideStep(s, pos, name);
  }

  lemma AwaitedInTag(s: string, pos: nat, f: Flags, start: nat, name: string)
    requires pos < |s| && !f.inComment && f.inTag && !Stands(s, pos, COMMENT_START)
    ensures f.inQuote
      ==> Awaited(s, pos, f, start, name) == Awaited(s, pos + 1, f.(inQuote := s[pos] != f.quoteChar), start, name)
    ensures !f.inQuote && s[pos] == '>' && f.found ==> Awaited(s, pos, f, start, name) == Some(Tag(start, pos + 1))
    ensures !f.inQuote && s[pos] == '>' && !f.found
      ==> Awaited(s, pos, f, start, name) == Awaited(s, pos + 1, f.(inTag := false), start, name)
    ensures !f.inQuote && (s[pos] == '"' || s[pos] == '\'')
      ==> var g := f.(inQuote := true, quoteChar := s[pos]);
          Awaited(s, pos, f, start, name) == Awaited(s, pos + 1, g, start, name)
    ensures !f.inQuote && s[pos] != '>' && s[pos] != '"' && s[pos] != '\''
      ==> Awaited(s, pos, f, start, name) == Awaited(s, pos + 1, f, start, name)
  {
    hide Stands, TagWithin, TagFrom, CommentEnd;
    WithinStep(s, pos, if f.inQuote then Some(f.quoteChar) else None, if f.found then Some(start) else None, name);
  }

  lemma AwaitedAtEnd(s: string, f: Flags, start: nat, name: string)
    ensures Awaited(s, |s|, f, start, name) == None
  {
    TagFromEnd(s, name);
  }

  lemma PlainFrom(s: string, from: nat, name: string)
    requires from <= |s|
    ensures CleanTags(s, from) ==> TagFrom(s, from, name) == TagIn(s, PlainTokens(s, from), name)
  {
    hide CleanTags, Tokens, PlainTokens, TagIn;
    if CleanTags(s, from) {
      CleanTagsAgree(s, from);
    }
  }

  /** A tag of the document from i on whose whole name is this one. */
  ghost predicate NamedTag(s: string, i: nat, t: Token, name: string)
    requires i <= |s|
  {
    t in Tokens(s, i) && t.Tag? && IsNamedAt(s, t.start + 1, name)
  }

  /** The first tag from i on with this name, or none when there is none. */
  ghost predicate FirstNamed(s: string, i: nat, r: Option<Token>, name: string)
    requires i <= |s|
  {
    && (r.Some? ==> NamedTag(s, i, r.value, name))
    && (forall t :: NamedTag(s, i, t, name) ==> r.Some? && r.value.start <= t.start)
  }

  lemma {:induction false} TokensSorted(s: string, i: nat, j: nat, k: nat)
    requires i <= |s| && j <= k < |Tokens(s, i)|
    ensures Tokens(s, i)[j].start <= Tokens(s, i)[k].start
    decreases k
  {
    hide TokenAt, Tokens, IsTokenOf;
    if j < k {
      TokensSorted(s, i, j, k - 1);
      TokensTile(s, i);
      TokenBounds(s, i, k - 1);
    }
  }

  lemma TagFromIsFirst(s: string, i: nat, name: string)
    requires i <= |s|
    ensures FirstNamed(s, i, TagFrom(s, i, name), name)
  {
    hide TokenAt, Tokens, DoesTagMatch, IsNamedAt;
    var tokens := Tokens(s, i);
    var k := FirstTag(s, tokens, name);
    if k < |tokens| {
      NameExact(s, tokens[k].start + 1, name);
    }
    forall t | NamedTag(s, i, t, name) ensures k < |tokens| && tokens[k].start <= t.start {
      NameExact(s, t.start + 1, name);
      var l :| 0 <= l < |tokens| && tokens[l] == t;
      TokensSorted(s, i, k, l);
    }
  }

  /**
   The scanner finds the first tag of that name which the reference lexer yields, and no other; when no comment
   starts inside a tag, that is the first one which the plain lexer yields.
   */
  method FindTag(s: string, from: nat, name: string) returns (r: Option<Token>)
    requires from <= |s|
    ensures r == TagFrom(s, from, name)
    ensures FirstNamed(s, from, r, name)
    ensures CleanTags(s, from) ==> r == TagIn(s, PlainTokens(s, from), name)
  {
    hide FirstNamed, TagFrom, TagWithin, CleanTags, PlainTokens, CommentEnd, Stands, DoesTagMatch, Awaited;
    AwaitedAtStart(s, from, name);
    PlainFrom(s, from, name);
    TagFromIsFirst(s, from, name);
    var found, inQuote, inTag, inComment, quoteChar := false, false, false, false, '\0';
    var szXml, szStart := from, 0;
    while szXml < |s|
      invariant szXml <= |s|
      invariant found ==> inTag
      invariant inQuote ==> inTag
      invariant Awaited(s, szXml, Flags(found, inQuote, inTag, inComment, quoteChar), szStart, name)
                == TagFrom(s, from, name)
      decreases |s| - szXml
    {
      ghost var f := Flags(found, inQuote, inTag, inComment, quoteChar);
      if inComment {
        AwaitedInComment(s, szXml, f, szStart, name);
        if Stands(s, szXml, COMMENT_END) {
          inComment := false;
          szXml := szXml + |COMMENT_END|;
          continue;
        }
      } else if Stands(s, szXml, COMMENT_START) {
        AwaitedAtComment(s, szXml, f, szStart, name);
        inComment := true;
        szXml := szXml + |COMMENT_START|;
        continue;
      } else if !inTag {
        AwaitedOutside(s, szXml, f, szStart, name);
        if s[szXml] == '<' {
          if DoesTagMatch(s, szXml + 1, name) {
            found := true;
            szStart := szXml;
          }
          inTag := true;
        }
      } else if !inQuote {
        AwaitedInTag(s, szXml, f, szStart, name);
        if s[szXml] == '>' {
          if found {
            return Some(Tag(szStart, szXml + 1));
          }
          inTag := false;
        } else if s[szXml] == '"' || s[szXml] == '\'' {
          inQuote := true;
          quoteChar := s[szXml];
        }
      } else {
        AwaitedInTag(s, szXml, f, szStart, name);
        if s[szXml] == quoteChar {
          inQuote := false;
        }
      }
      szXml := szXml + 1;
    }
    AwaitedAtEnd(s, Flags(found, inQuote, inTag, inComment, quoteChar), szStart, name);
    return None;
  }

  // ---------------------------------------------------------------- elements

  datatype Element = Element(startOuter: nat, startInner: nat, endInner: nat, endOuter: nat)

  ghost function Ender(name: string): string {
    "/" + name
  }

  /** An element runs from the first tag of its name to the first ender after it; then the search goes on behind it. */
  ghost function Elements(s: string, tokens: seq<Token>, name: string): seq<Element>
    decreases |tokens|, 1
  {
    var k := FirstTag(s, tokens, name);
    if k == |tokens| then [] else ElementsBehind(s, tokens[k], tokens[k + 1..], name)
  }

  /** The same with the first tag found: its element, if there is an ender, and the ones behind that. */
  ghost function ElementsBehind(s: string, open: Token, rest: seq<Token>, name: string): seq<Element>
    decreases |rest|, 2
  {
    var l := FirstTag(s, rest, Ender(name));
    if l == |rest| then [] else [ElementOf(open, rest[l])] + Elements(s, rest[l + 1..], name)
  }

  ghost function ElementOf(open: Token, close: Token): Element {
    Element(open.start, open.end, close.start, close.end)
  }

  /** A found tag lies behind the position, starts at a tag bracket and ends at one. */
  lemma TagFromBounds(s: string, i: nat, name: string)
    requires i <= |s|
    ensures var t := TagFrom(s, i, name);
            t.Some? ==> && t.value.Tag? && i <= t.value.start && t.value.start + 2 <= t.value.end <= |s|
                        && s[t.value.start] == '<' && s[t.value.end - 1] == '>'
                        && DoesTagMatch(s, t.value.start + 1, name)
  {
    hide TokenAt, DoesTagMatch, Tokens;
    var tokens := Tokens(s, i);
    var k := FirstTag(s, tokens, name);
    if k < |tokens| {
      TokenBounds(s, i, k);
    }
  }

  lemma {:induction false} TokenBounds(s: string, i: nat, k: nat)
    requires i <= |s| && k < |Tokens(s, i)|
    ensures var t := Tokens(s, i)[k];
            i <= t.start < t.end <= |s| && t == TokenAt(s, t.start)
    decreases k
  {
    hide TokenAt;
    if k > 0 {
      var next := TokenAt(s, i).end;
      assert Tokens(s, i)[k] == Tokens(s, next)[k - 1];
      TokenBounds(s, next, k - 1);
    }
  }

  /** The first element, by two searches. */
  ghost function FirstElement(s: string, i: nat, name: string): Option<Element>
    requires i <= |s|
  {
    var open := TagFrom(s, i, name);
    if open == None || open.value.end > |s| then None
    else
      var close := TagFrom(s, open.value.end, Ender(name));
      if close == None then None else Some(ElementOf(open.value, close.value))
  }

  lemma {:induction false} ElementsStep(s: string, i: nat, name: string)
    requires i <= |s|
    ensures var e := FirstElement(s, i, name);
            if e == None then Elements(s, Tokens(s, i), name) == []
            else && e.value.endOuter <= |s|
                 && Elements(s, Tokens(s, i), name) == [e.value] + Elements(s, Tokens(s, e.value.endOuter), name)
  {
    hide TokenAt, Tokens, IsTag, FirstTag, TagFrom, Ender, ElementsBehind;
    var tokens := Tokens(s, i);
    var k := FirstTag(s, tokens, name);
    TagFromToken(s, i, name);
    if k < |tokens| {
      TagFromToken(s, tokens[k].end, Ender(name));
      BehindUnfolds(s, tokens[k], tokens[k + 1..], name);
    }
  }

  lemma {:induction false} BehindUnfolds(s: string, open: Token, rest: seq<Token>, name: string)
    ensures var l := FirstTag(s, rest, Ender(name));
            ElementsBehind(s, open, rest, name)
              == (if l == |rest| then [] else [ElementOf(open, rest[l])] + Elements(s, rest[l + 1..], name))
  {
    hide IsTag, FirstTag, Ender, Elements;
  }

  lemma TagFromToken(s: string, i: nat, name: string)
    requires i <= |s|
    ensures var tokens := Tokens(s, i);
            var k := FirstTag(s, tokens, name);
            if k == |tokens| then TagFrom(s, i, name) == None
            else && TagFrom(s, i, name) == Some(tokens[k]) && tokens[k].end <= |s|
                 && tokens[k + 1..] == Tokens(s, tokens[k].end)
  {
    hide TokenAt, Tokens, IsTag, FirstTag;
    if FirstTag(s, Tokens(s, i), name) < |Tokens(s, i)| {
      TokensFrom(s, i, FirstTag(s, Tokens(s, i), name));
    }
  }

  /** Elements are not empty, do not overlap, and come in document order. */
  lemma {:induction false} ElementsOrdered(s: string, i: nat, name: string)
    requires i <= |s|
    ensures Ordered(s, Elements(s, Tokens(s, i), name), i)
    decreases |s| - i
  {
    hide Tokens, Elements, FirstElement;
    ElementsStep(s, i, name);
    FirstElementBounds(s, i, name);
    var e := FirstElement(s, i, name);
    if e.Some? {
      ElementsOrdered(s, e.value.endOuter, name);
      OrderedStep(s, e.value, Elements(s, Tokens(s, e.value.endOuter), name), i);
    }
  }

  lemma FirstElementBounds(s: string, i: nat, name: string)
    requires i <= |s|
    ensures var e := FirstElement(s, i, name);
            e.Some? ==> IsElement(s, e.value, i)
  {
    hide TagFrom, Ender, DoesTagMatch;
    TagFromBounds(s, i, name);
    if TagFrom(s, i, name).Some? {
      TagFromBounds(s, TagFrom(s, i, name).value.end, Ender(name));
    }
  }

  predicate IsElement(s: string, e: Element, i: nat) {
    i <= e.startOuter < e.startInner <= e.endInner < e.endOuter <= |s|
  }

  ghost predicate Ordered(s: string, elements: seq<Element>, i: nat) {
    && (forall k :: 0 <= k < |elements| ==> IsElement(s, elements[k], i))
    && (forall k, l :: 0 <= k < l < |elements| ==> elements[k].endOuter <= elements[l].startOuter)
  }

  lemma OrderedStep(s: string, e: Element, rest: seq<Element>, i: nat)
    requires IsElement(s, e, i) && Ordered(s, rest, e.endOuter)
    ensures Ordered(s, [e] + rest, i)
  {
  }

  ghost function Slice(s: string, e: Element, includeTag: bool): string
    requires IsElement(s, e, 0)
  {
    if includeTag then s[e.startOuter..e.endOuter] else s[e.startInner..e.endInner]
  }

  ghost function Slices(s: string, elements: seq<Element>, includeTag: bool): (r: seq<string>)
    requires forall k :: 0 <= k < |elements| ==> IsElement(s, elements[k], 0)
    ensures |r| == |elements|
    ensures forall k :: 0 <= k < |elements| ==> r[k] == Slice(s, elements[k], includeTag)
  {
    seq(|elements|, k requires 0 <= k < |elements| => Slice(s, elements[k], includeTag))
  }

  /** e opens at the first tag from i on with this name, and closes at the first ender of that name behind it. */
  ghost predicate IsFirstElement(s: string, i: nat, e: Element, name: string)
    requires i <= |s|
  {
    && e.startInner <= |s|
    && FirstNamed(s, i, Some(Tag(e.startOuter, e.startInner)), name)
    && FirstNamed(s, e.startInner, Some(Tag(e.endInner, e.endOuter)), "/" + name)
  }

  /** No tag from i on with this name has one with the slash behind it. */
  ghost predicate NoElement(s: string, i: nat, name: string)
    requires i <= |s|
  {
    forall t, u :: NamedTag(s, i, t, name) && t.end <= |s| ==> !NamedTag(s, t.end, u, "/" + name)
  }

  /** The elements of that name from i on, each searched for behind the one before, and no more. */
  ghost predicate AllElements(s: string, i: nat, elements: seq<Element>, name: string)
    requires i <= |s|
    decreases |elements|
  {
    if elements == [] then NoElement(s, i, name)
    else
      && IsFirstElement(s, i, elements[0], name) && elements[0].endOuter <= |s|
      && AllElements(s, elements[0].endOuter, elements[1..], name)
  }

  lemma FirstElementExact(s: string, i: nat, name: string)
    requires i <= |s|
    ensures var e := FirstElement(s, i, name);
            if e.Some? then IsFirstElement(s, i, e.value, name) else NoElement(s, i, name)
  {
    hide TagFrom, FirstNamed, NamedTag;
    TagFromIsFirst(s, i, name);
    TagFromBounds(s, i, name);
    var open := TagFrom(s, i, name);
    if open.Some? {
      TagFromIsFirst(s, open.value.end, Ender(name));
      TagFromBounds(s, open.value.end, Ender(name));
      if TagFrom(s, open.value.end, Ender(name)) == None {
        NoLaterElement(s, i, open.value, name);
      }
    } else {
      assert forall t :: !NamedTag(s, i, t, name) by {
        NoneNamed(s, i, name);
      }
    }
  }

  lemma NotNamed(s: string, i: nat, u: Token, name: string)
    requires i <= |s| && FirstNamed(s, i, None, name)
    ensures u in Tokens(s, i) && u.Tag? ==> !IsNamedAt(s, u.start + 1, name)
  {
    hide Tokens, IsNamedAt;
    NoneNamed(s, i, name);
    assert !NamedTag(s, i, u, name);
  }

  lemma NoneNamed(s: string, i: nat, name: string)
    requires i <= |s| && FirstNamed(s, i, None, name)
    ensures forall t :: !NamedTag(s, i, t, name)
  {
    hide NamedTag;
  }

  /** Every token from behind a token on is a token from its start on. */
  lemma {:induction false} LaterTokens(s: string, i: nat, t: Token, u: Token)
    requires i <= |s| && t in Tokens(s, i) && t.end <= |s| && u in Tokens(s, t.end)
    ensures u in Tokens(s, i)
    decreases |s| - i
  {
    hide TokenAt;
    var first := TokenAt(s, i);
    if t != first {
      LaterTokens(s, first.end, t, u);
    }
  }

  /** Behind a later token come only tokens that come behind an earlier one. */
  lemma {:induction false} TokensBehind(s: string, i: nat, t: Token, u: Token, v: Token)
    requires i <= |s| && t in Tokens(s, i) && u in Tokens(s, i) && t.start <= u.start
    requires t.end <= |s| && u.end <= |s| && v in Tokens(s, u.end)
    ensures v in Tokens(s, t.end)
    decreases |s| - i
  {
    hide TokenAt;
    var first := TokenAt(s, i);
    if t == first {
      if u != first {
        LaterTokens(s, first.end, u, v);
      }
    } else {
      NotBefore(s, first.end, t);
      TokensBehind(s, first.end, t, u, v);
    }
  }

  lemma NotBefore(s: string, i: nat, t: Token)
    requires i <= |s| && t in Tokens(s, i)
    ensures i <= t.start < t.end <= |s|
  {
    hide TokenAt, Tokens;
    var k :| 0 <= k < |Tokens(s, i)| && Tokens(s, i)[k] == t;
    TokenBounds(s, i, k);
  }

  lemma NoLaterElement(s: string, i: nat, open: Token, name: string)
    requires i <= |s| && FirstNamed(s, i, Some(open), name) && open.end <= |s|
    requires FirstNamed(s, open.end, None, "/" + name)
    ensures NoElement(s, i, name)
  {
    hide Tokens, IsNamedAt;
    forall t, u | NamedTag(s, i, t, name) && t.end <= |s| ensures !NamedTag(s, t.end, u, "/" + name) {
      NotNamed(s, open.end, u, "/" + name);
      if u in Tokens(s, t.end) {
        TokensBehind(s, i, open, t, u);
      }
    }
  }

  lemma {:induction false} ElementsExact(s: string, i: nat, name: string)
    requires i <= |s|
    ensures AllElements(s, i, Elements(s, Tokens(s, i), name), name)
    decreases |s| - i
  {
    hide Tokens, Elements, FirstElement, IsFirstElement, NoElement;
    ElementsStep(s, i, name);
    FirstElementExact(s, i, name);
    FirstElementBounds(s, i, name);
    var e := FirstElement(s, i, name);
    if e.Some? {
      ElementsExact(s, e.value.endOuter, name);
      var all := Elements(s, Tokens(s, i), name);
      assert all[0] == e.value && all[1..] == Elements(s, Tokens(s, e.value.endOuter), name);
    }
  }

  method FindElement(s: string, from: nat, name: string) returns (r: Option<Element>)
    requires from <= |s|
    ensures var all := Elements(s, Tokens(s, from), name);
            r == if all == [] then None else Some(all[0])
    ensures r.Some? ==> IsElement(s, r.value, from)
    ensures if r.Some? then IsFirstElement(s, from, r.value, name) else NoElement(s, from, name)
    ensures r.Some? ==> Elements(s, Tokens(s, from), name)[1..] == Elements(s, Tokens(s, r.value.endOuter), name)
  {
    hide Tokens, Elements, TagFrom, DoesTagMatch, IsFirstElement, NoElement, FirstNamed;
    FirstElementExact(s, from, name);
    ElementsStep(s, from, name);
    TagFromBounds(s, from, name);
    var open := FindTag(s, from, name);
    if open == None {
      return None;
    }
    var ender := "/" + name;
    TagFromBounds(s, open.value.end, ender);
    var close := FindTag(s, open.value.end, ender);
    if close == None {
      return None;
    }
    return Some(Element(open.value.start, open.value.end, close.value.start, close.value.end));
  }

  /** Extracts every element, in document order, from disjoint parts of the document; the loop ends. */
  method ExtractElementAll(s: string, name: string, includeTag: bool) returns (vOccurrences: seq<string>)
    ensures var elements := Elements(s, Tokens(s, 0), name);
            && AllElements(s, 0, elements, name) && Ordered(s, elements, 0)
            && |vOccurrences| == |elements|
            && forall k :: 0 <= k < |elements| ==>
                 var e := elements[k];
                 vOccurrences[k] == if includeTag then s[e.startOuter..e.endOuter] else s[e.startInner..e.endInner]
    ensures CleanTags(s, 0) ==> Elements(s, Tokens(s, 0), name) == Elements(s, PlainTokens(s, 0), name)
  {
    hide Tokens, Elements, CleanTags, PlainTokens, AllElements, IsFirstElement, NoElement;
    if CleanTags(s, 0) {
      CleanTagsAgree(s, 0);
    }
    ElementsOrdered(s, 0, name);
    ElementsExact(s, 0, name);
    ghost var all := Elements(s, Tokens(s, 0), name);
    ghost var n := 0;
    vOccurrences := [];
    var szXml := 0;
    assert all[0..] == all;
    while true
      invariant szXml <= |s| && n <= |all|
      invariant all[n..] == Elements(s, Tokens(s, szXml), name)
      invariant vOccurrences == Slices(s, all[..n], includeTag)
      decreases |s| - szXml
    {
      var element := FindElement(s, szXml, name);
      if element == None {
        break;
      }
      var e := element.value;
      if includeTag {
        vOccurrences := vOccurrences + [s[e.startOuter..e.endOuter]];
      } else {
        vOccurrences := vOccurrences + [s[e.startInner..e.endInner]];
      }
      assert all[n] == element.value && all[n + 1..] == all[n..][1..];
      n := n + 1;
      szXml := element.value.endOuter;
    }
    assert all[..n] == all;
  }
}
