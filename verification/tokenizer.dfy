/** `parseInput` (CVFS.java): the quote-aware splitter that turns one command
    line into the token array every command receives. */
module Tokenizer {
  import opened Text

  /** The loop state of `parseInput`: the quote flag, the StringBuilder and the
      token list built so far. */
  datatype Scanner = Scanner(inQuote: bool, current: string, tokens: seq<string>)

  const Start := Scanner(false, "", [])

  /** One iteration of the loop: a `"` toggles quote mode and is dropped;
      whitespace outside quotes ends a non-empty token; anything else is
      appended to the current token. A step only ever appends the pending
      token to the list, and keeps tokens non-empty and free of quotes. */
  function Step(st: Scanner, c: char): (r: Scanner)
    ensures r.tokens == st.tokens || (|st.current| > 0 && r.tokens == st.tokens + [st.current])
    ensures r.inQuote != st.inQuote <==> c == '"'
    ensures IsWhitespace(c) && !st.inQuote ==> r.current == ""
    ensures CleanTokens(st.tokens) && '"' !in st.current ==> CleanTokens(r.tokens) && '"' !in r.current
  {
    if c == '"' then st.(inQuote := !st.inQuote)
    else if IsWhitespace(c) && !st.inQuote then
      (if |st.current| > 0 then Scanner(st.inQuote, "", st.tokens + [st.current]) else st)
    else st.(current := st.current + [c])
  }

  /** The loop run over the characters of `s`, from state `st`. */
  function Feed(st: Scanner, s: string): Scanner
    decreases |s|
  {
    if s == [] then st else Feed(Step(st, s[0]), s[1..])
  }

  /** The code after the loop: a pending non-empty token is kept. */
  function Finish(st: Scanner): seq<string>
  {
    if |st.current| > 0 then st.tokens + [st.current] else st.tokens
  }

  /** The token array `parseInput(input)` returns: no token is empty and
      none holds a quote character. */
  function Tokens(input: string): (r: seq<string>)
    ensures CleanTokens(r)
  {
    FeedKeepsClean(Start, input);
    Finish(Feed(Start, input))
  }

  /** No token is empty and no token holds a `"`. */
  predicate CleanTokens(ts: seq<string>)
  {
    forall i :: 0 <= i < |ts| ==> |ts[i]| > 0 && '"' !in ts[i]
  }

  /** A word with no whitespace and no quote: it survives the splitter as is. */
  predicate PlainWord(t: string)
  {
    |t| > 0 && forall i :: 0 <= i < |t| ==> !IsWhitespace(t[i]) && t[i] != '"'
  }

  /** The tokens joined by single spaces. */
  function Join(ts: seq<string>): string
  {
    if |ts| == 0 then "" else if |ts| == 1 then ts[0] else ts[0] + " " + Join(ts[1..])
  }

  method ParseInput(input: string) returns (tokens: seq<string>)
    ensures tokens == Tokens(input)
    ensures CleanTokens(tokens)
  {
    tokens := [];
    var inQuote := false;
    var sb := "";
    for i := 0 to |input|
      invariant Feed(Scanner(inQuote, sb, tokens), input[i..]) == Feed(Start, input)
    {
      assert input[i..] == [input[i]] + input[i + 1..];
      var c := input[i];
      if c == '"' {
        inQuote := !inQuote;
      } else if IsWhitespace(c) && !inQuote {
        if |sb| > 0 {
          tokens := tokens + [sb];
          sb := "";
        }
      } else {
        sb := sb + [c];
      }
    }
    if |sb| > 0 {
      tokens := tokens + [sb];
    }
  }

  lemma {:induction false} FeedConcat(st: Scanner, a: string, b: string)
    ensures Feed(st, a + b) == Feed(Feed(st, a), b)
    decreases |a|
  {
    if a != [] {
      assert (a + b)[1..] == a[1..] + b;
      FeedConcat(Step(st, a[0]), a[1..], b);
    } else {
      assert a + b == b;
    }
  }

  lemma {:induction false} FeedKeepsClean(st: Scanner, s: string)
    requires CleanTokens(st.tokens) && '"' !in st.current
    ensures CleanTokens(Feed(st, s).tokens) && '"' !in Feed(st, s).current
    decreases |s|
  {
    if s != [] {
      FeedKeepsClean(Step(st, s[0]), s[1..]);
    }
  }

  /** A quote-free, whitespace-free word is appended to the current token. */
  lemma {:induction false} FeedPlain(st: Scanner, t: string)
    requires forall i :: 0 <= i < |t| ==> !IsWhitespace(t[i]) && t[i] != '"'
    ensures Feed(st, t) == st.(current := st.current + t)
    decreases |t|
  {
    if t == [] {
      assert st.current + t == st.current;
    } else {
      FeedPlain(Step(st, t[0]), t[1..]);
      assert st.current + [t[0]] + t[1..] == st.current + t;
    }
  }

  /** Inside quotes every character but `"` is appended, whitespace included. */
  lemma {:induction false} FeedQuoted(st: Scanner, t: string)
    requires st.inQuote && '"' !in t
    ensures Feed(st, t) == st.(current := st.current + t)
    decreases |t|
  {
    if t == [] {
      assert st.current + t == st.current;
    } else {
      assert t[0] != '"' && '"' !in t[1..];
      FeedQuoted(Step(st, t[0]), t[1..]);
      assert st.current + [t[0]] + t[1..] == st.current + t;
    }
  }

  lemma {:induction false} FeedJoin(acc: seq<string>, ts: seq<string>)
    requires |ts| > 0 && forall i :: 0 <= i < |ts| ==> PlainWord(ts[i])
    ensures Feed(Scanner(false, "", acc), Join(ts)) == Scanner(false, ts[|ts| - 1], acc + ts[..|ts| - 1])
    decreases |ts|
  {
    var st := Scanner(false, "", acc);
    if |ts| == 1 {
      FeedPlain(st, ts[0]);
      assert "" + ts[0] == ts[0];
      assert acc + ts[..0] == acc;
    } else {
      var rest := ts[1..];
      FeedConcat(st, ts[0] + " ", Join(rest));
      FeedConcat(st, ts[0], " ");
      FeedPlain(st, ts[0]);
      assert "" + ts[0] == ts[0];
      assert Feed(Scanner(false, ts[0], acc), " ") == Scanner(false, "", acc + [ts[0]]);
      FeedJoin(acc + [ts[0]], rest);
      assert acc + [ts[0]] + rest[..|rest| - 1] == acc + ts[..|ts| - 1];
    }
  }

  /** Round trip: words without whitespace or quotes, joined by spaces, are
      split back into exactly those words. */
  lemma {:induction false} JoinThenTokens(ts: seq<string>)
    requires forall i :: 0 <= i < |ts| ==> PlainWord(ts[i])
    ensures Tokens(Join(ts)) == ts
  {
    if |ts| > 0 {
      var init, last := ts[..|ts| - 1], ts[|ts| - 1];
      FeedJoin([], ts);
      assert [] + init == init;
      assert Feed(Start, Join(ts)) == Scanner(false, last, init);
      assert init + [last] == ts;
    }
  }

  /** A valid file name typed as an argument reaches the command unchanged,
      as a single token. */
  lemma ValidNameIsOneToken(name: string)
    requires IsValidName(name)
    ensures Tokens(name) == [name]
  {
    JoinThenTokens([name]);
  }

  /** A quoted phrase is one token, spaces and all, without its quotes. */
  lemma QuotedPhraseIsOneToken(t: string)
    requires |t| > 0 && '"' !in t
    ensures Tokens("\"" + t + "\"") == [t]
  {
    var quoting := Scanner(true, "", []);
    FeedConcat(Start, "\"" + t, "\"");
    FeedConcat(Start, "\"", t);
    FeedQuoted(quoting, t);
    assert "" + t == t;
  }
}
