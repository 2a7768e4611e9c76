/**
 * `CommandParser.Parse`: splits a command string into the program and its
 * arguments at spaces outside double quotes. A `"` toggles quoting and stays
 * in its token; an unquoted space ends the current token; the last token is
 * always emitted, even when empty.
 */
module Commands {
  import opened Text

  /** The loop state of `Parse` after a prefix of its input. */
  datatype ScanState = ScanState(inQuote: bool, parts: seq<string>, temp: string)

  const Start := ScanState(false, [], "")

  /** One iteration of the loop over the input's characters. */
  function Step(st: ScanState, c: char): ScanState
  {
    if c == '"' then st.(inQuote := !st.inQuote, temp := st.temp + [c])
    else if c == ' ' && !st.inQuote then st.(parts := st.parts + [st.temp], temp := "")
    else st.(temp := st.temp + [c])
  }

  /** Whether a character at a position with `s` before it lies inside quotes. */
  predicate Quoted(s: string)
  {
    Occurrences(s, '"') % 2 == 1
  }

  /** The number of spaces in `s` with an even number of `"` before them. */
  function UnquotedSpaces(s: string): nat
  {
    if |s| == 0 then 0
    else
      var init := s[..|s| - 1];
      UnquotedSpaces(init) + (if s[|s| - 1] == ' ' && !Quoted(init) then 1 else 0)
  }

  /** The state after scanning all of `s` from the start. */
  function Scan(s: string): ScanState
  {
    if |s| == 0 then Start else Step(Scan(s[..|s| - 1]), s[|s| - 1])
  }

  /**
   * What the scan keeps track of: the tokens so far and the pending one join
   * back to the text read, the quote flag tracks the parity of the quotes
   * seen, and one token has been completed per unquoted space.
   */
  lemma {:induction false} ScanInvariant(s: string)
    ensures Join(Scan(s).parts + [Scan(s).temp], " ") == s
    ensures Scan(s).inQuote <==> Quoted(s)
    ensures |Scan(s).parts| == UnquotedSpaces(s)
    decreases |s|
  {
    if |s| > 0 {
      var init := s[..|s| - 1];
      var c := s[|s| - 1];
      ScanInvariant(init);
      assert s == init + [c];
      OccurrencesSnoc(init, c, '"');
      ScanStep(Scan(init), c);
    }
  }

  /** How one step changes the joined text: it gains exactly the character read. */
  lemma ScanStep(st: ScanState, c: char)
    ensures Join(Step(st, c).parts + [Step(st, c).temp], " ")
         == Join(st.parts + [st.temp], " ") + [c]
  {
    var next := Step(st, c);
    if c == ' ' && !st.inQuote {
      assert next.parts + [next.temp] == (st.parts + [st.temp]) + [""];
      JoinSnoc(st.parts + [st.temp], "", " ");
    } else if |st.parts| == 0 {
      assert next.parts + [next.temp] == [st.temp + [c]];
    } else {
      JoinSnoc(st.parts, st.temp + [c], " ");
      JoinSnoc(st.parts, st.temp, " ");
    }
  }

  /**
   * Every finished part ended at a space outside quotes: the text before
   * that space, which the parts up to this one rebuild, holds an even
   * number of `"`.
   */
  lemma {:induction false} ScanPartsEndUnquoted(s: string)
    ensures forall k :: 0 < k <= |Scan(s).parts| ==> !Quoted(Join(Scan(s).parts[..k], " "))
    decreases |s|
  {
    if |s| > 0 {
      var init := s[..|s| - 1];
      var c := s[|s| - 1];
      var st := Scan(init);
      ScanPartsEndUnquoted(init);
      ScanInvariant(init);
      if c == ' ' && !st.inQuote {
        var parts := st.parts + [st.temp];
        assert Scan(s).parts == parts;
        assert parts[..|parts|] == parts;
        assert forall k :: 0 < k < |parts| ==> parts[..k] == st.parts[..k];
      }
    }
  }

  /**
   * The tokens `Parse` returns: never empty, joining them with single
   * spaces restores the input (quotes included), every space that joins two
   * tokens lies outside quotes, and there is one token more than there are
   * spaces outside quotes. Together these fix where every split falls.
   */
  function Tokenize(s: string): (r: seq<string>)
    ensures |r| >= 1
    ensures Join(r, " ") == s
    ensures forall k :: 0 < k < |r| ==> !Quoted(Join(r[..k], " "))
    ensures |r| == UnquotedSpaces(s) + 1
  {
    ScanInvariant(s);
    ScanPartsEndUnquoted(s);
    var r := Scan(s).parts + [Scan(s).temp];
    assert forall k :: 0 < k < |r| ==> r[..k] == Scan(s).parts[..k];
    r
  }

  /**
   * `CommandParser.Parse` as the source writes it: a loop over the characters
   * with the quote flag, the finished parts and the pending token.
   */
  method Parse(input: string) returns (parts: seq<string>)
    ensures parts == Tokenize(input)
    ensures |parts| >= 1 && Join(parts, " ") == input
  {
    var inQuote := false;
    var temp := "";
    parts := [];
    for i := 0 to |input|
      invariant Scan(input[..i]) == ScanState(inQuote, parts, temp)
    {
      var c := input[i];
      assert input[..i + 1][..i] == input[..i];
      if c == '"' {
        inQuote := !inQuote;
        temp := temp + [c];
      } else if c == ' ' && !inQuote {
        parts := parts + [temp];
        temp := "";
      } else {
        temp := temp + [c];
      }
    }
    assert input[..|input|] == input;
    parts := parts + [temp];
  }

  /** Without quotes in the string no token holds a space. */
  lemma {:induction false} ScanWithoutQuotes(s: string)
    requires '"' !in s
    ensures !Scan(s).inQuote && ' ' !in Scan(s).temp
    ensures forall i :: 0 <= i < |Scan(s).parts| ==> ' ' !in Scan(s).parts[i]
    decreases |s|
  {
    if |s| > 0 {
      var init := s[..|s| - 1];
      assert forall c :: c in init ==> c in s;
      ScanWithoutQuotes(init);
    }
  }

  /** With no `"` in it, a command string tokenizes exactly like `Split(' ')`. */
  lemma NoQuotesIsSplit(s: string)
    requires '"' !in s
    ensures Tokenize(s) == Split(s, ' ')
  {
    var r := Tokenize(s);
    ScanWithoutQuotes(s);
    assert forall i :: 0 <= i < |r| ==> ' ' !in r[i];
    SplitJoin(r, ' ');
  }

  /** Scanning one more character is one more step. */
  lemma ScanSnoc(s: string, c: char)
    ensures Scan(s + [c]) == Step(Scan(s), c)
  {
    assert (s + [c])[..|s|] == s;
  }

  /**
   * A run of characters other than `"`, and other than space unless inside
   * quotes, only extends the pending token.
   */
  lemma {:induction false} ScanWord(s: string, w: string)
    requires '"' !in w
    requires Scan(s).inQuote || ' ' !in w
    ensures Scan(s + w) == Scan(s).(temp := Scan(s).temp + w)
    decreases |w|
  {
    if |w| == 0 {
      assert s + w == s;
    } else {
      var init := w[..|w| - 1];
      assert forall c :: c in init ==> c in w;
      assert w[|w| - 1] in w;
      ScanWord(s, init);
      assert s + w == (s + init) + [w[|w| - 1]];
      ScanSnoc(s + init, w[|w| - 1]);
      assert Scan(s).temp + init + [w[|w| - 1]] == Scan(s).temp + w;
    }
  }

  /**
   * A quoted argument is one token however many spaces it holds, and keeps
   * its quotes.
   */
  lemma QuotedArgumentStaysWhole(cmd: string, arg: string, rest: string)
    requires '"' !in cmd && ' ' !in cmd
    requires '"' !in arg
    requires '"' !in rest && ' ' !in rest
    ensures Tokenize(cmd + " \"" + arg + "\" " + rest) == [cmd, "\"" + arg + "\"", rest]
  {
    var s3 := cmd + [' ', '"'] + arg;
    var s6 := s3 + ['"', ' '] + rest;
    assert s6 == cmd + " \"" + arg + "\" " + rest;
    ScanOpenQuote(cmd, arg);
    ScanCloseQuote(s3, [cmd], ['"'] + arg, rest);
  }

  /** A program name, a space, an opening quote and text leave the scan inside quotes. */
  lemma ScanOpenQuote(cmd: string, arg: string)
    requires '"' !in cmd && ' ' !in cmd && '"' !in arg
    ensures Scan(cmd + [' ', '"'] + arg) == ScanState(true, [cmd], ['"'] + arg)
  {
    var s1 := cmd + [' '];
    var s2 := s1 + ['"'];
    assert s2 == cmd + [' ', '"'];
    assert Scan(s2) == ScanState(true, [cmd], ['"']) by {
      assert Scan(s1) == ScanState(false, [cmd], []) by {
        assert Scan(cmd) == ScanState(false, [], cmd) by {
          ScanWord([], cmd);
          assert [] + cmd == cmd;
        }
        ScanSnoc(cmd, ' ');
      }
      ScanSnoc(s1, '"');
    }
    ScanWord(s2, arg);
  }

  /** A closing quote and a space end the quoted token; a following word becomes the pending token. */
  lemma ScanCloseQuote(s: string, parts: seq<string>, temp: string, rest: string)
    requires Scan(s) == ScanState(true, parts, temp)
    requires '"' !in rest && ' ' !in rest
    ensures Scan(s + ['"', ' '] + rest) == ScanState(false, parts + [temp + ['"']], rest)
  {
    ScanSnoc(s, '"');
    ScanSnoc(s + ['"'], ' ');
    assert s + ['"'] + [' '] == s + ['"', ' '];
    ScanWord(s + ['"', ' '], rest);
  }

  /** A command whose quoted argument holds a space. */
  lemma QuotedArgumentExample()
    ensures Tokenize("echo \"hello world\" foo") == ["echo", "\"hello world\"", "foo"]
  {
    assert "echo" + " \"" + "hello world" + "\" " + "foo" == "echo \"hello world\" foo";
    assert "\"" + "hello world" + "\"" == "\"hello world\"";
    QuotedArgumentStaysWhole("echo", "hello world", "foo");
  }
}
