/** The tokenizer of rtf2txt: `getToken` reads characters from the input
    stream up to the next terminal character and returns the literal text
    before it (the token), the terminal itself, and whether the stream ended.
    On the way it elides the hexadecimal escape `'a0` / `'A0` (what is left of
    RTF's `\'a0` non-breaking space once the backslash has ended the previous
    token).

    The stream is modelled as the whole input `seq<char>` and a cursor into it;
    one call reads from the cursor on and returns the cursor after the last
    character it consumed. */
module Tokenizer {

  /** The characters that end a token (the six labels of the first arm of
      getToken's switch). */
  predicate IsTerminal(c: char) {
    c == '\\' || c == '{' || c == '}' || c == ' ' || c == '\t' || c == '\n'
  }

  predicate NoTerminal(s: seq<char>) {
    forall k :: 0 <= k < |s| ==> !IsTerminal(s[k])
  }

  /** The three locals of one getToken call: the match counter `specialCase`,
      the buffer `special` of characters held back while a match is pending,
      and the token built so far. */
  datatype Scanner = Scanner(specialCase: nat, special: seq<char>, token: seq<char>)

  /** The locals at the start of every call. */
  const Fresh := Scanner(0, [], [])

  /** What a call returns: the end-of-stream flag (getToken's result), the
      token, the terminal, and the cursor after the consumed characters. */
  datatype Token = Token(eof: bool, text: seq<char>, terminal: seq<char>, next: nat)

  /** One non-terminal character through getToken's switch.  A false alarm
      appends `special` to the token and resets the counter but does NOT clear
      `special` (the source calls `special.empty()`, which only asks whether it
      is empty).  A character of the default arm is appended and leaves a
      pending match pending. */
  function Feed(s: Scanner, c: char): (r: Scanner)
    requires !IsTerminal(c)
    ensures s.token <= r.token && s.special <= r.special
    ensures r.specialCase > s.specialCase ==>
              r.specialCase == s.specialCase + 1 && r.special == s.special + [c] && r.token == s.token
    ensures r.specialCase < s.specialCase ==> r.specialCase == 0 && r.special == s.special
  {
    if c == '\'' then
      if s.specialCase > 0 then Scanner(0, s.special, s.token + s.special + [c])
      else Scanner(1, s.special + [c], s.token)
    else if c == 'a' || c == 'A' then
      if s.specialCase == 1 then Scanner(2, s.special + [c], s.token)
      else if s.specialCase > 0 then Scanner(0, s.special, s.token + s.special + [c])
      else Scanner(s.specialCase, s.special, s.token + [c])
    else if c == '0' then
      if s.specialCase == 2 then Scanner(0, s.special, s.token)
      else if s.specialCase > 0 then Scanner(0, s.special, s.token + s.special + [c])
      else Scanner(s.specialCase, s.special, s.token + [c])
    else
      Scanner(s.specialCase, s.special, s.token + [c])
  }

  /** The token handed back when a terminal arrives: a pending match is
      appended to it first. */
  function Flush(s: Scanner): (r: seq<char>)
    ensures s.token <= r && |r| <= |s.token| + |s.special|
  {
    if s.specialCase > 0 then s.token + s.special else s.token
  }

  /** The rest of a getToken call from cursor `pos` with locals `s`.  The call
      ends at the first terminal at or after `pos` (consuming it), or at the
      end of the input with the pending match dropped. */
  function Scan(input: seq<char>, pos: nat, s: Scanner): (r: Token)
    requires pos <= |input|
    ensures pos <= r.next <= |input|
    ensures r.eof <==> r.terminal == []
    ensures r.eof ==> r.next == |input|
    ensures !r.eof ==> pos < r.next && r.terminal == [input[r.next - 1]]
    decreases |input| - pos
  {
    if pos == |input| then Token(true, s.token, [], pos)
    else if IsTerminal(input[pos]) then Token(false, Flush(s), [input[pos]], pos + 1)
    else Scan(input, pos + 1, Feed(s, input[pos]))
  }

  /** The result of one getToken call starting at cursor `pos`. */
  function NextToken(input: seq<char>, pos: nat): (r: Token)
    requires pos <= |input|
    ensures pos <= r.next <= |input|
    ensures r.eof <==> r.terminal == []
    ensures !r.eof ==> pos < r.next && r.terminal == [input[r.next - 1]]
  {
    Scan(input, pos, Fresh)
  }

  /** getToken: the read loop over the stream, with the counter, the pending
      buffer and the token as locals. */
  method GetToken(input: seq<char>, pos: nat) returns (eof: bool, token: seq<char>, terminal: seq<char>, next: nat)
    requires pos <= |input|
    ensures Token(eof, token, terminal, next) == NextToken(input, pos)
  {
    var specialCase: nat := 0;
    var special: seq<char> := [];
    token := [];
    terminal := [];
    var i := pos;
    while i < |input|
      invariant pos <= i <= |input|
      invariant terminal == []
      invariant Scan(input, i, Scanner(specialCase, special, token)) == NextToken(input, pos)
    {
      var c := input[i];
      i := i + 1;
      if IsTerminal(c) {
        if specialCase > 0 {
          // mismatch: the held-back characters join the token
          token := token + special;
          specialCase := 0;
        }
        terminal := terminal + [c];
        return false, token, terminal, i;
      } else if c == '\'' {
        if specialCase > 0 {
          // mismatch: the held-back characters join the token
          token := token + special;
          specialCase := 0;
        } else {
          specialCase := 1;
          special := special + [c];
          continue;
        }
      } else if c == 'a' || c == 'A' {
        if specialCase == 1 {
          special := special + [c];
          specialCase := 2;
          continue;
        } else if specialCase > 0 {
          // mismatch: the held-back characters join the token
          token := token + special;
          specialCase := 0;
        }
      } else if c == '0' {
        if specialCase == 2 {
          // the escape is complete and adds nothing
          specialCase := 0;
          continue;
        } else if specialCase > 0 {
          // mismatch: the held-back characters join the token
          token := token + special;
          specialCase := 0;
        }
      }
      token := token + [c];
    }
    return true, token, terminal, i;
  }

  // ---------------------------------------------------------------------------
  // Properties of one call

  /** What the locals can hold between two characters: the counter is 0, 1 or
      2, `special` only ever holds apostrophes and the letters a/A, and a
      pending match is backed by its characters at the end of `special`. */
  predicate ScannerOk(s: Scanner) {
    && s.specialCase <= 2
    && (forall k :: 0 <= k < |s.special| ==> s.special[k] in "'aA")
    && (s.specialCase >= 1 ==> |s.special| >= s.specialCase && s.special[|s.special| - s.specialCase] == '\'')
    && (s.specialCase == 2 ==> s.special[|s.special| - 1] in "aA")
    && NoTerminal(s.token)
  }

  lemma FeedKeepsScannerOk(s: Scanner, c: char)
    requires ScannerOk(s) && !IsTerminal(c)
    ensures ScannerOk(Feed(s, c))
  {
    var r := Feed(s, c);
    if r.special != s.special {
      assert r.special == s.special + [c];
      assert forall k :: 0 <= k < |s.special| ==> r.special[k] == s.special[k];
    }
    if r.token != s.token {
      assert r.token == s.token + [c] || r.token == s.token + s.special + [c];
      assert NoTerminal(s.special) by {
        forall k | 0 <= k < |s.special| ensures !IsTerminal(s.special[k]) {
          assert s.special[k] in "'aA";
        }
      }
    }
  }

  /** A call stops at the first terminal after the cursor and hands it back
      as its terminal; it reports the end of the input only when there is no
      terminal left. */
  lemma {:induction false} ScanStopsAtFirstTerminal(input: seq<char>, pos: nat, s: Scanner)
    requires pos <= |input|
    ensures var r := Scan(input, pos, s);
            && (r.eof ==> NoTerminal(input[pos..]))
            && (!r.eof ==> IsTerminal(input[r.next - 1]) && NoTerminal(input[pos..r.next - 1]))
    decreases |input| - pos
  {
    if pos == |input| {
      assert input[pos..] == [];
    } else if IsTerminal(input[pos]) {
      assert input[pos..pos] == [];
    } else {
      var s' := Feed(s, input[pos]);
      var r := Scan(input, pos + 1, s');
      assert Scan(input, pos, s) == r;
      ScanStopsAtFirstTerminal(input, pos + 1, s');
      if r.eof {
        NoTerminalCons(input[pos], input[pos + 1..]);
        assert input[pos..] == [input[pos]] + input[pos + 1..];
      } else {
        NoTerminalCons(input[pos], input[pos + 1..r.next - 1]);
        assert input[pos..r.next - 1] == [input[pos]] + input[pos + 1..r.next - 1];
      }
    }
  }

  lemma NoTerminalCons(c: char, t: seq<char>)
    requires !IsTerminal(c) && NoTerminal(t)
    ensures NoTerminal([c] + t)
  {
    assert forall k :: 1 <= k < |t| + 1 ==> ([c] + t)[k] == t[k - 1];
  }

  /** A token never holds a terminal character, and the pending buffer never
      holds anything but apostrophes and a/A, however the call goes. */
  lemma {:induction false} ScanTokenHasNoTerminal(input: seq<char>, pos: nat, s: Scanner)
    requires pos <= |input| && ScannerOk(s)
    ensures NoTerminal(Scan(input, pos, s).text)
    decreases |input| - pos
  {
    if pos < |input| {
      if IsTerminal(input[pos]) {
        assert NoTerminal(s.special) by {
          forall k | 0 <= k < |s.special| ensures !IsTerminal(s.special[k]) {
            assert s.special[k] in "'aA";
          }
        }
        assert Scan(input, pos, s).text == Flush(s);
      } else {
        FeedKeepsScannerOk(s, input[pos]);
        ScanTokenHasNoTerminal(input, pos + 1, Feed(s, input[pos]));
      }
    }
  }

  lemma NextTokenHasNoTerminal(input: seq<char>, pos: nat)
    requires pos <= |input|
    ensures NoTerminal(NextToken(input, pos).text)
  {
    ScanTokenHasNoTerminal(input, pos, Fresh);
  }

  /** With no apostrophe before the terminal, nothing is held back or elided:
      the token is exactly the characters between the cursor and the first
      terminal (or the end of the input). */
  lemma {:induction false} ScanWithoutApostrophe(input: seq<char>, pos: nat, s: Scanner)
    requires pos <= |input| && s.specialCase == 0
    requires forall k :: pos <= k < Scan(input, pos, s).next ==> input[k] != '\''
    ensures var r := Scan(input, pos, s);
            r.text == s.token + input[pos..if r.eof then r.next else r.next - 1]
    decreases |input| - pos
  {
    if pos < |input| && !IsTerminal(input[pos]) {
      var r := Scan(input, pos, s);
      var s' := Feed(s, input[pos]);
      assert input[pos] != '\'';
      assert s' == Scanner(0, s.special, s.token + [input[pos]]);
      assert r == Scan(input, pos + 1, s');
      ScanWithoutApostrophe(input, pos + 1, s');
      var e := if r.eof then r.next else r.next - 1;
      assert r.text == s'.token + input[pos + 1..e];
      assert input[pos..e] == [input[pos]] + input[pos + 1..e];
    }
  }

  /** A call whose first terminal after the cursor is at `k` consumes
      exactly up to and including it. */
  lemma {:induction false} ScanStopsAt(input: seq<char>, pos: nat, k: nat, s: Scanner)
    requires pos <= k < |input| && IsTerminal(input[k])
    requires forall j :: pos <= j < k ==> !IsTerminal(input[j])
    ensures !Scan(input, pos, s).eof && Scan(input, pos, s).next == k + 1
    decreases k - pos
  {
    if pos < k {
      ScanStopsAt(input, pos + 1, k, Feed(s, input[pos]));
    }
  }

  /** A call that meets no terminal reads the whole rest of the input. */
  lemma {:induction false} ScanReachesEnd(input: seq<char>, pos: nat, s: Scanner)
    requires pos <= |input|
    requires forall j :: pos <= j < |input| ==> !IsTerminal(input[j])
    ensures Scan(input, pos, s).eof
    decreases |input| - pos
  {
    if pos < |input| {
      ScanReachesEnd(input, pos + 1, Feed(s, input[pos]));
    }
  }

  /** With no match pending and no apostrophe before the first terminal (at
      `k`), the rest of the call appends exactly the characters before that
      terminal and returns it. */
  lemma PlainScan(input: seq<char>, pos: nat, k: nat, s: Scanner)
    requires pos <= k < |input| && IsTerminal(input[k]) && s.specialCase == 0
    requires forall j :: pos <= j < k ==> !IsTerminal(input[j]) && input[j] != '\''
    ensures Scan(input, pos, s) == Token(false, s.token + input[pos..k], [input[k]], k + 1)
  {
    ScanStopsAt(input, pos, k, s);
    ScanWithoutApostrophe(input, pos, s);
  }

  /** A call that meets no apostrophe before its first terminal (at `k`)
      returns exactly the characters before that terminal, and the terminal. */
  lemma PlainToken(input: seq<char>, pos: nat, k: nat)
    requires pos <= k < |input| && IsTerminal(input[k])
    requires forall j :: pos <= j < k ==> !IsTerminal(input[j]) && input[j] != '\''
    ensures NextToken(input, pos) == Token(false, input[pos..k], [input[k]], k + 1)
  {
    PlainScan(input, pos, k, Fresh);
  }

  /** A call that meets neither a terminal nor an apostrophe reports the end
      of the input and returns the rest of the input as its token. */
  lemma PlainLastToken(input: seq<char>, pos: nat)
    requires pos <= |input|
    requires forall j :: pos <= j < |input| ==> !IsTerminal(input[j]) && input[j] != '\''
    ensures NextToken(input, pos) == Token(true, input[pos..], [], |input|)
  {
    ScanReachesEnd(input, pos, Fresh);
    ScanWithoutApostrophe(input, pos, Fresh);
  }

  /** The hex escape: `'a0` or `'A0` read with no match pending adds nothing
      to the token and leaves no match pending.  Its apostrophe and letter stay
      behind in `special` (it is never cleared). */
  lemma HexEscapeElided(s: Scanner, letter: char)
    requires s.specialCase == 0 && (letter == 'a' || letter == 'A')
    ensures Feed(Feed(Feed(s, '\''), letter), '0') == Scanner(0, s.special + ['\'', letter], s.token)
  {
  }

  /** A call that starts on the hex escape and then meets only plain
      characters up to its terminal at `k` returns exactly those characters:
      the escape contributes nothing to the token. */
  lemma HexEscapeThenPlain(input: seq<char>, pos: nat, k: nat)
    requires pos + 3 <= k < |input| && IsTerminal(input[k])
    requires input[pos] == '\'' && (input[pos + 1] == 'a' || input[pos + 1] == 'A') && input[pos + 2] == '0'
    requires forall j :: pos + 3 <= j < k ==> !IsTerminal(input[j]) && input[j] != '\''
    ensures NextToken(input, pos) == Token(false, input[pos + 3..k], [input[k]], k + 1)
  {
    var s := Scanner(0, ['\'', input[pos + 1]], []);
    assert Scan(input, pos, Fresh) == Scan(input, pos + 3, s) by {
      var s1 := Feed(Fresh, '\'');
      var s2 := Feed(s1, input[pos + 1]);
      assert Scan(input, pos, Fresh) == Scan(input, pos + 1, s1);
      assert Scan(input, pos + 1, s1) == Scan(input, pos + 2, s2);
      assert s2 == Scanner(2, ['\'', input[pos + 1]], []);
      assert Feed(s2, input[pos + 2]) == s;
    }
    PlainScan(input, pos + 3, k, s);
  }

  /** The fate of a pending match.  A terminal appends it to the token; the
      end of the input drops it; a mismatching apostrophe, letter or zero
      appends it followed by that character; any other character is appended
      alone and leaves the match pending. */
  lemma PendingMatchFate(s: Scanner, c: char)
    requires s.specialCase > 0 && ScannerOk(s)
    ensures Scan([c], 0, s).text == (if IsTerminal(c) then s.token + s.special else Feed(s, c).token)
    ensures Scan([], 0, s).text == s.token
    ensures !IsTerminal(c) ==>
              var mismatch := c == '\'' || ((c == 'a' || c == 'A') && s.specialCase == 2)
                              || (c == '0' && s.specialCase == 1);
              var continues := ((c == 'a' || c == 'A') && s.specialCase == 1)
                               || (c == '0' && s.specialCase == 2);
              && (mismatch ==> Feed(s, c) == Scanner(0, s.special, s.token + s.special + [c]))
              && (!mismatch && !continues ==> Feed(s, c) == Scanner(s.specialCase, s.special, s.token + [c]))
  {
  }

  // ---------------------------------------------------------------------------
  // The quirks, on concrete inputs

  /** `special` is not cleared by a false alarm: after `'0` has been given
      back, a new apostrophe is appended to the stale buffer, and the terminal
      flushes both apostrophes. */
  lemma StaleSpecialIsFlushed()
    ensures NextToken("'0'x}", 0) == Token(false, "'0x''", "}", 5)
  {
    var input := "'0'x}";
    var s2 := Feed(Feed(Fresh, '\''), '0');
    assert s2 == Scanner(0, "'", "'0");
    assert NextToken(input, 0) == Scan(input, 2, s2);
    var s4 := Feed(Feed(s2, '\''), 'x');
    assert s4 == Scanner(1, "''", "'0x");
    assert Scan(input, 2, s2) == Scan(input, 4, s4);
  }

  /** A character of the default arm does not cancel a pending match: the
      `x` between the apostrophe and `a0` is kept and the three others are
      elided. */
  lemma DefaultArmKeepsMatchPending()
    ensures NextToken("'xa0 ", 0) == Token(false, "x", " ", 5)
  {
    var s1 := Feed(Fresh, '\'');
    var s2 := Feed(s1, 'x');
    assert s2 == Scanner(1, "'", "x");
    var s3 := Feed(s2, 'a');
    assert s3 == Scanner(2, "'a", "x");
    var s4 := Feed(s3, '0');
    assert s4 == Scanner(0, "'a", "x");
  }

  /** A pending match is dropped at the end of the input. */
  lemma PendingDroppedAtEnd()
    ensures NextToken("ab'A", 0) == Token(true, "ab", "", 4)
  {
    var s2 := Feed(Feed(Fresh, 'a'), 'b');
    assert s2 == Scanner(0, [], "ab");
    var s4 := Feed(Feed(s2, '\''), 'A');
    assert s4 == Scanner(2, "'A", "ab");
  }
}
