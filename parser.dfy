/** The parser of rtf2txt: the seven-state machine in `main`'s token loop.
    It first looks for the header, three tokens in a row: an empty token ended
    by `{`, an empty token ended by a backslash, and a token containing `rtf`.
    After that, outside `s_esc`, it hands each non-empty token and each blank
    terminal to the line wrapper; `s_esc` swallows its token and terminal (the
    control word after a backslash) and writes only a lone `{` or `}`.  The
    loop stops as soon as the tokenizer reports the end of the input (the
    last, unterminated token is never looked at) and always ends with a flush
    of the pending line. */
module Parser {
  import opened Tokenizer
  import opened LineWrapper

  datatype State = Init1 | Init2 | Init3 | Block | Tag | Text | Esc

  /** The three header-detection states. */
  predicate IsInit(s: State) {
    s == Init1 || s == Init2 || s == Init3
  }

  /** The next state of a step, and the fragments it hands to lineWrap, in
      order. */
  datatype Outcome = Outcome(next: State, emitted: seq<seq<char>>)

  /** `pat` occurs in `s` at index `i`. */
  predicate OccursAt(s: seq<char>, pat: seq<char>, i: nat) {
    i + |pat| <= |s| && s[i..i + |pat|] == pat
  }

  /** `std::string::find(pat) != npos`. */
  function Contains(s: seq<char>, pat: seq<char>): (r: bool)
    ensures r <==> exists i: nat :: OccursAt(s, pat, i)
    decreases |s|
  {
    if |s| < |pat| then false
    else if s[..|pat|] == pat then
      assert OccursAt(s, pat, 0);
      true
    else
      OccursLater(s, pat);
      Contains(s[1..], pat)
  }

  /** When `pat` is not at the front of `s`, its occurrences are those in the
      tail. */
  lemma OccursLater(s: seq<char>, pat: seq<char>)
    requires |s| >= |pat| && s[..|pat|] != pat
    ensures (exists i: nat :: OccursAt(s[1..], pat, i)) <==> (exists i: nat :: OccursAt(s, pat, i))
  {
    if i: nat :| OccursAt(s[1..], pat, i) {
      assert s[1..][i..i + |pat|] == s[i + 1..i + 1 + |pat|];
      assert OccursAt(s, pat, i + 1);
    }
    if i: nat :| OccursAt(s, pat, i) {
      assert i > 0;
      assert s[1..][i - 1..i - 1 + |pat|] == s[i..i + |pat|];
      assert OccursAt(s[1..], pat, i - 1);
    }
  }

  predicate IsBlank(terminal: seq<char>) {
    terminal == " " || terminal == "\t" || terminal == "\n"
  }

  /** The terminal dispatch of the `s_block` and `s_tag` arms (the token is
      ignored). */
  function Dispatch(terminal: seq<char>): (r: State)
    ensures !IsInit(r) && r != Tag
    ensures r == Esc <==> terminal == "\\"
    ensures r == Block <==> terminal == "{" || terminal == "}"
  {
    if terminal == "\\" then Esc
    else if terminal == "{" || terminal == "}" then Block
    else Text
  }

  /** The `s_text` arm, entered in state `st`: the non-empty token is written,
      then a blank terminal; a terminal it does not know leaves `st` as it is. */
  function TextArm(st: State, token: seq<char>, terminal: seq<char>): (r: Outcome)
    ensures !IsInit(st) ==> !IsInit(r.next)
    ensures forall f :: f in r.emitted ==> f != [] && (f == token || (f == terminal && IsBlank(f)))
    ensures r.emitted == [] <==> token == [] && !IsBlank(terminal)
  {
    var emitted := (if token != [] then [token] else []) + (if IsBlank(terminal) then [terminal] else []);
    if IsBlank(terminal) then Outcome(Text, emitted)
    else if terminal == "\\" then Outcome(Esc, emitted)
    else if terminal == "{" then Outcome(Block, emitted)
    else if terminal == "}" then Outcome(Text, emitted)
    else Outcome(st, emitted)
  }

  /** One iteration of the switch in `main`.  `s_block` has no break and falls
      into `s_tag`, which has none either and falls into `s_text`; each of the
      first two arms sets the state by Dispatch, the second overwriting the
      first with the same value. */
  function Step(st: State, token: seq<char>, terminal: seq<char>): (r: Outcome)
    ensures IsInit(st) ==> r.emitted == []
    ensures !IsInit(st) ==> !IsInit(r.next)
    ensures r.next == Init2 <==> st == Init1 && token == [] && terminal == "{"
    ensures r.next == Init3 <==> st == Init2 && token == [] && terminal == "\\"
    ensures IsInit(st) && !IsInit(r.next) <==> st == Init3 && Contains(token, "rtf")
    ensures st == Init3 && Contains(token, "rtf") ==>
              r.next == if terminal == "\\" then Esc else if terminal == "{" then Block else Text
  {
    match st
    case Init1 =>
      if token == [] && terminal == "{" then Outcome(Init2, []) else Outcome(Init1, [])
    case Init2 =>
      if token == [] && terminal == "\\" then Outcome(Init3, []) else Outcome(Init1, [])
    case Init3 =>
      if !Contains(token, "rtf") then Outcome(Init1, [])
      else if terminal == "\\" then Outcome(Esc, [])
      else if terminal == "{" then Outcome(Block, [])
      else Outcome(Text, [])
    case Block => TextArm(Dispatch(terminal), token, terminal)
    case Tag => TextArm(Dispatch(terminal), token, terminal)
    case Text => TextArm(Text, token, terminal)
    case Esc =>
      if token == [] && (terminal == "{" || terminal == "}") then Outcome(Text, [terminal])
      else if terminal == "\\" then Outcome(Esc, [])
      else if terminal == "{" then Outcome(Block, [])
      else Outcome(Text, [])
  }

  /** lineWrap applied to each fragment in turn. */
  function WrapAll(p: Page, fragments: seq<seq<char>>): (r: Page)
    ensures p.out <= r.out
    decreases |fragments|
  {
    if fragments == [] then p
    else WrapAll(Wrapped(p, fragments[0]), fragments[1..])
  }

  /** The token loop of `main` from cursor `pos` in state `st` with page `p`,
      up to and including the final flush. */
  function Run(input: seq<char>, pos: nat, st: State, p: Page): (r: Page)
    requires pos <= |input|
    ensures r.line == []
    ensures p.out <= r.out && |r.out| > |p.out| && r.out[|r.out| - 1] == '\n'
    decreases |input| - pos
  {
    var t := NextToken(input, pos);
    if t.eof then Wrapped(p, "\n")
    else
      var o := Step(st, t.text, t.terminal);
      Run(input, t.next, o.next, WrapAll(p, o.emitted))
  }

  /** Everything the converter writes for `input`. */
  function Converted(input: seq<char>): (r: seq<char>)
    ensures r != [] && r[|r| - 1] == '\n'
  {
    Run(input, 0, Init1, Page([], [])).out
  }

  /** The body of main's `switch (state)`: the state after one (token,
      terminal) pair, with lineWrap called on what the arm writes. */
  method Switch(w: Wrapper, state: State, token: seq<char>, terminal: seq<char>) returns (next: State)
    requires w.Valid()
    modifies w
    ensures w.Valid()
    ensures next == Step(state, token, terminal).next
    ensures w.Contents() == WrapAll(old(w.Contents()), Step(state, token, terminal).emitted)
  {
    next := state;
    match state {
      case Init1 =>
        // header, first step: an empty token ended by `{`
        if token == [] && terminal == "{" {
          next := Init2;
        }
      case Init2 =>
        // header, second step: an empty token ended by a backslash
        if token == [] && terminal == "\\" {
          next := Init3;
        } else {
          next := Init1;
        }
      case Init3 =>
        // header, third step: a token holding "rtf"; then dispatch
        if !Contains(token, "rtf") {
          next := Init1;
        } else if terminal == "\\" {
          next := Esc;
        } else if terminal == "{" {
          next := Block;
        } else {
          next := Text;
        }
      case Esc =>
        if token == [] && (terminal == "{" || terminal == "}") {
          w.LineWrap(terminal);
          next := Text;
        } else if terminal == "\\" {
          next := Esc;
        } else if terminal == "{" {
          next := Block;
        } else {
          next := Text;
        }
      case _ =>
        // s_block falls into s_tag, which falls into s_text
        if state == Block {
          next := Dispatch(terminal);
        }
        if state == Block || state == Tag {
          next := Dispatch(terminal);
        }
        next := TextCase(w, next, token, terminal);
    }
  }

  /** The code of the `s_text` arm, entered with the state `st` set by the
      arms above it (or `s_text` itself). */
  method TextCase(w: Wrapper, st: State, token: seq<char>, terminal: seq<char>) returns (next: State)
    requires w.Valid()
    modifies w
    ensures w.Valid()
    ensures next == TextArm(st, token, terminal).next
    ensures w.Contents() == WrapAll(old(w.Contents()), TextArm(st, token, terminal).emitted)
  {
    next := st;
    ghost var start := w.Contents();
    if token != [] {
      w.LineWrap(token);
    }
    assert w.Contents() == WrapAll(start, if token != [] then [token] else []);
    ghost var mid := w.Contents();
    if IsBlank(terminal) {
      w.LineWrap(terminal);
      next := Text;
    } else if terminal == "\\" {
      next := Esc;
    } else if terminal == "{" {
      next := Block;
    } else if terminal == "}" {
      next := Text;
    }
    assert w.Contents() == WrapAll(mid, if IsBlank(terminal) then [terminal] else []);
    WrapAllAppend(start, if token != [] then [token] else [], if IsBlank(terminal) then [terminal] else []);
  }

  lemma {:induction false} WrapAllAppend(p: Page, a: seq<seq<char>>, b: seq<seq<char>>)
    ensures WrapAll(p, a + b) == WrapAll(WrapAll(p, a), b)
    decreases |a|
  {
    if a == [] {
      assert a + b == b;
    } else {
      assert (a + b)[0] == a[0] && (a + b)[1..] == a[1..] + b;
      WrapAllAppend(Wrapped(p, a[0]), a[1..], b);
    }
  }

  /** main's token loop, with `Line` as a Wrapper object and standard output
      as its `out` field. */
  method Convert(input: seq<char>) returns (out: seq<char>)
    ensures out == Converted(input)
  {
    var w := new Wrapper();
    var state := Init1;
    var pos := 0;
    var eof, token, terminal, next := GetToken(input, pos);
    while !eof
      invariant pos <= |input| && w.Valid()
      invariant Token(eof, token, terminal, next) == NextToken(input, pos)
      invariant Run(input, pos, state, w.Contents()).out == Converted(input)
      decreases |input| - pos
    {
      state := Switch(w, state, token, terminal);
      pos := next;
      eof, token, terminal, next := GetToken(input, pos);
    }
    w.LineWrap("\n");
    out := w.out;
  }

  // ---------------------------------------------------------------------------
  // Properties of a step

  /** `s_block`, `s_tag` and `s_text` behave alike: the non-empty token is
      written, then a space, tab or newline terminal; the next state is
      `s_esc` after a backslash, `s_block` after an opening brace and `s_text`
      otherwise. */
  lemma TextStatesAgree(st: State, token: seq<char>, terminal: seq<char>)
    requires st == Block || st == Tag || st == Text
    ensures Step(st, token, terminal).emitted
            == (if token != [] then [token] else []) + (if IsBlank(terminal) then [terminal] else [])
    ensures Step(st, token, terminal).next
            == if terminal == "\\" then Esc else if terminal == "{" then Block else Text
  {
  }

  /** `s_esc` never writes its token: it writes only a lone brace that comes
      with an empty token, and then goes to `s_text`. */
  lemma EscWritesOnlyLoneBraces(token: seq<char>, terminal: seq<char>)
    ensures var o := Step(Esc, token, terminal);
            && (o.emitted != [] <==> token == [] && (terminal == "{" || terminal == "}"))
            && (o.emitted != [] ==> o.emitted == [terminal] && o.next == Text)
            && (o.emitted == [] ==>
                  o.next == if terminal == "\\" then Esc else if terminal == "{" then Block else Text)
  {
  }

  // ---------------------------------------------------------------------------
  // Properties of a whole run

  /** The page invariant of the wrapper holds over the whole run. */
  lemma {:induction false} RunKeepsPageOk(input: seq<char>, pos: nat, st: State, p: Page)
    requires pos <= |input| && PageOk(p)
    ensures PageOk(Run(input, pos, st, p))
    decreases |input| - pos
  {
    var t := NextToken(input, pos);
    if t.eof {
      WrappedKeepsPageOk(p, "\n");
    } else {
      var o := Step(st, t.text, t.terminal);
      WrapAllKeepsPageOk(p, o.emitted);
      RunKeepsPageOk(input, t.next, o.next, WrapAll(p, o.emitted));
    }
  }

  lemma {:induction false} WrapAllKeepsPageOk(p: Page, fragments: seq<seq<char>>)
    requires PageOk(p)
    ensures PageOk(WrapAll(p, fragments))
    decreases |fragments|
  {
    if fragments != [] {
      WrappedKeepsPageOk(p, fragments[0]);
      WrapAllKeepsPageOk(Wrapped(p, fragments[0]), fragments[1..]);
    }
  }

  /** The converter's output is a sequence of complete lines, none longer
      than 78 characters. */
  lemma ConvertedLinesAtMost(input: seq<char>)
    ensures var out := Converted(input);
            out != [] && out[|out| - 1] == '\n' && LinesAtMost(out, MaxLine)
  {
    var empty: seq<char> := [];
    assert LinesAtMost(empty, MaxLine) by {
      assert forall k :: 0 <= k <= 0 ==> empty[..k] == empty;
    }
    RunKeepsPageOk(input, 0, Init1, Page([], []));
  }

  /** Without a backslash the header `\rtf` can never be seen: the machine
      stays in `s_init_1` / `s_init_2` and the run writes nothing but the
      final flush. */
  lemma {:induction false} NoBackslashStaysInHeader(input: seq<char>, pos: nat, st: State, p: Page)
    requires pos <= |input| && (st == Init1 || st == Init2)
    requires forall k :: pos <= k < |input| ==> input[k] != '\\'
    ensures Run(input, pos, st, p) == Wrapped(p, "\n")
    decreases |input| - pos
  {
    var t := NextToken(input, pos);
    if !t.eof {
      assert t.terminal != "\\";
      var o := Step(st, t.text, t.terminal);
      assert o.next == Init1 || o.next == Init2;
      NoBackslashStaysInHeader(input, t.next, o.next, WrapAll(p, o.emitted));
    }
  }

  /** An input without a backslash yields only the newline of the final
      flush. */
  lemma NoBackslashNoText(input: seq<char>)
    requires forall k :: 0 <= k < |input| ==> input[k] != '\\'
    ensures Converted(input) == "\n"
  {
    NoBackslashStaysInHeader(input, 0, Init1, Page([], []));
  }

  /** One pass of main's loop: a token ended by a terminal goes through the
      switch, and the loop goes on after it. */
  lemma RunStep(input: seq<char>, pos: nat, st: State, p: Page, text: seq<char>, terminal: seq<char>, next: nat)
    requires pos <= |input| && NextToken(input, pos) == Token(false, text, terminal, next)
    ensures Run(input, pos, st, p)
            == Run(input, next, Step(st, text, terminal).next, WrapAll(p, Step(st, text, terminal).emitted))
  {
  }

  /** The loop stops as soon as getToken reports the end of the input: the
      last token is never looked at, whatever the state, and the final
      `lineWrap("\n")` flushes the pending line. */
  lemma RunEnd(input: seq<char>, pos: nat, st: State, p: Page)
    requires pos <= |input| && NextToken(input, pos).eof
    ensures Run(input, pos, st, p) == Page([], p.out + p.line + "\n")
  {
  }

  // ---------------------------------------------------------------------------
  // Runs on concrete documents

  /** A word the tokenizer passes through unchanged: no terminal, no
      apostrophe. */
  predicate Plain(w: seq<char>) {
    forall j :: 0 <= j < |w| ==> !IsTerminal(w[j]) && w[j] != '\''
  }

  /** The token that starts at `pos`, where `w` is plain and followed by a
      terminal at `end`. */
  lemma WordToken(doc: seq<char>, pos: nat, end: nat, w: seq<char>)
    requires Plain(w) && end == pos + |w| && end < |doc| && doc[pos..end] == w && IsTerminal(doc[end])
    ensures NextToken(doc, pos) == Token(false, w, [doc[end]], end + 1)
  {
    forall j | pos <= j < end ensures !IsTerminal(doc[j]) && doc[j] != '\'' {
      assert doc[j] == w[j - pos];
    }
    PlainToken(doc, pos, end);
  }

  /** In `s_text`, a non-empty plain word and a space that fit on the
      pending line are both appended to it. */
  lemma WordThenSpaceAppended(p: Page, w: seq<char>)
    requires Plain(w) && w != [] && |p.line| + |w| + 1 <= MaxLine
    ensures Step(Text, w, " ") == Outcome(Text, [w, " "])
    ensures WrapAll(p, [w, " "]) == Page(p.line + w + " ", p.out)
  {
    assert w != "\n" by { assert !IsTerminal(w[0]); }
    FittingFragmentAppended(p, w);
    var q := Page(p.line + w, p.out);
    FittingFragmentAppended(q, " ");
    assert WrapAll(p, [w, " "]) == WrapAll(q, [" "]);
    assert WrapAll(q, [" "]) == WrapAll(Page(q.line + " ", q.out), []);
  }

  /** In `s_text`, a non-empty plain word ended by `}` or `\` that fits on
      the pending line is appended to it without its terminal; `\` moves the
      machine to `s_esc`, `}` keeps it in `s_text`. */
  lemma WordThenControlAppended(p: Page, w: seq<char>, c: char, next: State)
    requires Plain(w) && w != [] && |p.line| + |w| <= MaxLine
    requires (c == '}' && next == Text) || (c == '\\' && next == Esc)
    ensures Step(Text, w, [c]) == Outcome(next, [w])
    ensures WrapAll(p, [w]) == Page(p.line + w, p.out)
  {
    assert w != "\n" by { assert !IsTerminal(w[0]); }
    FittingFragmentAppended(p, w);
    assert WrapAll(p, [w]) == WrapAll(Page(p.line + w, p.out), []);
  }

  /** A pass of main's loop in `s_text` over a word, ended by the terminal
      at `end`, whose outcome is known. */
  lemma TextRunWord(doc: seq<char>, pos: nat, end: nat, w: seq<char>, p: Page, next: State, q: Page)
    requires Plain(w) && end == pos + |w| && end < |doc| && doc[pos..end] == w && IsTerminal(doc[end])
    requires Step(Text, w, [doc[end]]).next == next
    requires WrapAll(p, Step(Text, w, [doc[end]]).emitted) == q
    ensures Run(doc, pos, Text, p) == Run(doc, end + 1, next, q)
  {
    WordToken(doc, pos, end, w);
    RunStep(doc, pos, Text, p, w, [doc[end]], end + 1);
  }

  /** A word and a space appended in `s_text`, as a run. */
  lemma TextWordThenSpace(doc: seq<char>, pos: nat, end: nat, w: seq<char>, p: Page)
    requires Plain(w) && w != [] && end == pos + |w| && end < |doc| && doc[pos..end] == w
    requires doc[end] == ' ' && |p.line| + |w| + 1 <= MaxLine
    ensures Run(doc, pos, Text, p) == Run(doc, end + 1, Text, Page(p.line + w + " ", p.out))
  {
    WordThenSpaceAppended(p, w);
    TextRunWord(doc, pos, end, w, p, Text, Page(p.line + w + " ", p.out));
  }

  /** A word ended by `}` or `\` appended in `s_text`, as a run. */
  lemma TextWordThenControl(doc: seq<char>, pos: nat, end: nat, w: seq<char>, p: Page, next: State)
    requires Plain(w) && w != [] && end == pos + |w| && end < |doc| && doc[pos..end] == w
    requires |p.line| + |w| <= MaxLine
    requires (doc[end] == '}' && next == Text) || (doc[end] == '\\' && next == Esc)
    ensures Run(doc, pos, Text, p) == Run(doc, end + 1, next, Page(p.line + w, p.out))
  {
    WordThenControlAppended(p, w, doc[end], next);
    TextRunWord(doc, pos, end, w, p, next, Page(p.line + w, p.out));
  }

  /** The header `{\rtf ` at the start of a document moves the machine to
      `s_text` and writes nothing. */
  lemma HeaderRun(doc: seq<char>, p: Page)
    requires |doc| >= 6 && doc[..6] == "{\\rtf "
    ensures Run(doc, 0, Init1, p) == Run(doc, 6, Text, p)
  {
    assert doc[0] == '{' && doc[1] == '\\' && doc[2..5] == "rtf" && doc[5] == ' ';
    HeaderSymbol(doc, 0, Init1, p);
    HeaderSymbol(doc, 1, Init2, p);
    HeaderName(doc, p);
  }

  /** A header terminal with an empty token before it writes nothing. */
  lemma HeaderSymbol(doc: seq<char>, pos: nat, st: State, p: Page)
    requires pos < |doc| && IsInit(st) && IsTerminal(doc[pos])
    ensures Run(doc, pos, st, p) == Run(doc, pos + 1, Step(st, [], [doc[pos]]).next, p)
  {
    PlainToken(doc, pos, pos);
    RunStep(doc, pos, st, p, [], [doc[pos]], pos + 1);
  }

  /** The token `rtf` ended by a space moves `s_init3` to `s_text`. */
  lemma HeaderName(doc: seq<char>, p: Page)
    requires |doc| >= 6 && doc[2..5] == "rtf" && doc[5] == ' '
    ensures Run(doc, 2, Init3, p) == Run(doc, 6, Text, p)
  {
    PlainToken(doc, 2, 5);
    assert Contains("rtf", "rtf");
    RunStep(doc, 2, Init3, p, "rtf", " ", 6);
  }

  /** When the input is exhausted in `s_text`, the closing `lineWrap("\n")`
      writes the pending line and a newline. */
  lemma EndFlushesLine(doc: seq<char>, line: seq<char>)
    ensures Run(doc, |doc|, Text, Page(line, [])) == Page([], line + "\n")
  {
    PlainLastToken(doc, |doc|);
    RunEnd(doc, |doc|, Text, Page(line, []));
    assert [] + line + "\n" == line + "\n";
  }

  /** Where the pieces of `{\rtf w1 w2}` sit, stated as the steps of
      HelloWorld need them. */
  lemma HelloLayout(w1: seq<char>, w2: seq<char>, doc: seq<char>)
    requires doc == "{\\rtf " + w1 + " " + w2 + "}" && |w1| + 1 + |w2| <= MaxLine
    ensures |doc| >= 6 && doc[..6] == "{\\rtf "
    ensures 6 + |w1| < |doc| && doc[6..6 + |w1|] == w1 && doc[6 + |w1|] == ' '
    ensures 0 + |w1| + 1 <= MaxLine && [] + w1 + " " == w1 + " "
    ensures 7 + |w1| + |w2| < |doc| && doc[7 + |w1|..7 + |w1| + |w2|] == w2 && doc[7 + |w1| + |w2|] == '}'
    ensures |w1 + " "| + |w2| <= MaxLine && 7 + |w1| + |w2| + 1 == |doc|
  {
  }

  /** `{\rtf Hello world}`, for any two plain words that fit on one line:
      the header token is not written; the words and the space between them
      are, and the final flush ends the line. */
  lemma HelloWorld(w1: seq<char>, w2: seq<char>)
    requires Plain(w1) && Plain(w2) && w1 != [] && w2 != [] && |w1| + 1 + |w2| <= MaxLine
    ensures Converted("{\\rtf " + w1 + " " + w2 + "}") == w1 + " " + w2 + "\n"
  {
    var doc := "{\\rtf " + w1 + " " + w2 + "}";
    HelloLayout(w1, w2, doc);
    HeaderRun(doc, Page([], []));
    TextWordThenSpace(doc, 6, 6 + |w1|, w1, Page([], []));
    TextWordThenControl(doc, 7 + |w1|, 7 + |w1| + |w2|, w2, Page(w1 + " ", []), Text);
    EndFlushesLine(doc, w1 + " " + w2);
  }

  /** Where the pieces of `{\rtf A\'a0B}` sit, stated as the steps of
      HexEscapeHidesFollowingText need them. */
  lemma HexLayout(a: seq<char>, b: seq<char>, doc: seq<char>)
    requires doc == "{\\rtf " + a + "\\'a0" + b + "}" && |a| <= MaxLine
    ensures |doc| >= 6 && doc[..6] == "{\\rtf "
    ensures 6 + |a| < |doc| && doc[6..6 + |a|] == a && doc[6 + |a|] == '\\'
    ensures 0 + |a| <= MaxLine && [] + a == a
    ensures |doc| == 11 + |a| + |b|
    ensures doc[7 + |a|] == '\'' && doc[8 + |a|] == 'a' && doc[9 + |a|] == '0'
    ensures doc[10 + |a|..10 + |a| + |b|] == b && doc[10 + |a| + |b|] == '}'
  {
  }

  /** The escape `'a0` is elided from the next token, which is `B`; it
      arrives in `s_esc`, which writes nothing for it and returns to
      `s_text` on its terminal `}`. */
  lemma HexEscapedWord(a: seq<char>, b: seq<char>, doc: seq<char>)
    requires Plain(b) && b != [] && |doc| == 11 + |a| + |b|
    requires doc[7 + |a|] == '\'' && doc[8 + |a|] == 'a' && doc[9 + |a|] == '0'
    requires doc[10 + |a|..10 + |a| + |b|] == b && doc[10 + |a| + |b|] == '}'
    ensures Run(doc, 7 + |a|, Esc, Page(a, [])) == Run(doc, |doc|, Text, Page(a, []))
  {
    var m := 10 + |a|;
    forall j | m <= j < m + |b| ensures !IsTerminal(doc[j]) && doc[j] != '\'' {
      assert doc[j] == b[j - m];
    }
    HexEscapeThenPlain(doc, 7 + |a|, m + |b|);
    assert doc[m..m + |b|] == b;
    assert Step(Esc, b, "}") == Outcome(Text, []);
    RunStep(doc, 7 + |a|, Esc, Page(a, []), b, "}", |doc|);
  }

  /** `{\rtf A\'a0B}`, for any two plain words: the escape is elided, but
      the token `B` that follows it arrives in `s_esc`, which never writes
      its token, so only `A` is written. */
  lemma HexEscapeHidesFollowingText(a: seq<char>, b: seq<char>)
    requires Plain(a) && Plain(b) && a != [] && b != [] && |a| <= MaxLine
    ensures Converted("{\\rtf " + a + "\\'a0" + b + "}") == a + "\n"
  {
    var doc := "{\\rtf " + a + "\\'a0" + b + "}";
    HexLayout(a, b, doc);
    HeaderRun(doc, Page([], []));
    TextWordThenControl(doc, 6, 6 + |a|, a, Page([], []), Esc);
    HexEscapedWord(a, b, doc);
    EndFlushesLine(doc, a);
  }

  /** `{\rtf Hello`, for any plain word: the last token, ended by the end of
      the input, is never processed, so only the final newline is written. */
  lemma FinalTokenDropped(w: seq<char>)
    requires Plain(w)
    ensures Converted("{\\rtf " + w) == "\n"
  {
    var doc := "{\\rtf " + w;
    assert doc[..6] == "{\\rtf ";
    HeaderRun(doc, Page([], []));
    forall j | 6 <= j < |doc| ensures !IsTerminal(doc[j]) && doc[j] != '\'' {
      assert doc[j] == w[j - 6];
    }
    PlainLastToken(doc, 6);
    RunEnd(doc, 6, Text, Page([], []));
  }
}
