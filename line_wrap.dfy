/** The line wrapper of rtf2txt: `lineWrap` appends a text fragment to the
    pending line `Line` and writes complete lines of at most 78 characters to
    standard output, breaking at the last whitespace among the first 78
    characters.  A lone newline fragment flushes the whole pending line.

    Standard output is modelled as the sequence of characters written so far;
    the pending line and that output together form a `Page`. */
module LineWrapper {

  /** `MY_MAX_LINE`: the longest pending line lineWrap leaves behind. */
  const MaxLine: nat := 78

  /** `isspace` in the C locale. */
  predicate IsSpace(c: char) {
    c == ' ' || c == '\t' || c == '\n' || c == '\U{B}' || c == '\U{C}' || c == '\r'
  }

  /** The pending line and everything written to standard output so far. */
  datatype Page = Page(line: seq<char>, out: seq<char>)

  /** The break index chosen by the inner scan of `line[0..n)`: the last
      whitespace position below `n`, or MaxLine - 1 when there is none. */
  function BreakAt(line: seq<char>, n: nat): (b: nat)
    requires n <= MaxLine <= |line|
    ensures b < MaxLine
    ensures (exists j :: 0 <= j < n && IsSpace(line[j]))
            ==> b < n && IsSpace(line[b]) && forall j :: b < j < n ==> !IsSpace(line[j])
    ensures (forall j :: 0 <= j < n ==> !IsSpace(line[j])) ==> b == MaxLine - 1
  {
    if n == 0 then MaxLine - 1
    else if IsSpace(line[n - 1]) then n - 1
    else BreakAt(line, n - 1)
  }

  /** Where one pass of the wrap loop breaks an over-long line. */
  function BreakIndex(line: seq<char>): (b: nat)
    requires |line| > MaxLine
    ensures b < MaxLine && (IsSpace(line[b]) || b == MaxLine - 1)
  {
    BreakAt(line, MaxLine)
  }

  /** The wrap loop: while the pending line is longer than MaxLine, write the
      part before the break index and a newline, and erase the written part
      together with the character at the break index. */
  function Drain(p: Page): (r: Page)
    ensures |r.line| <= MaxLine
    ensures p.out <= r.out
    decreases |p.line|
  {
    if |p.line| <= MaxLine then p
    else
      var b := BreakIndex(p.line);
      Drain(Page(p.line[b + 1..], p.out + p.line[..b] + "\n"))
  }

  /** lineWrap(text) on page `p`. */
  function Wrapped(p: Page, text: seq<char>): (r: Page)
    ensures p.out <= r.out
    ensures text == "\n" ==> r.line == [] && r.out == p.out + p.line + "\n"
    ensures text != "\n" ==> |r.line| <= MaxLine
  {
    if text == "\n" then Page([], p.out + p.line + text)
    else Drain(Page(p.line + text, p.out))
  }

  // ---------------------------------------------------------------------------
  // Output lines

  /** The column the output is at: the number of characters after the last
      newline written. */
  function Column(out: seq<char>): nat {
    if out == [] then 0
    else if out[|out| - 1] == '\n' then 0
    else Column(out[..|out| - 1]) + 1
  }

  /** No output line (complete, or the one being written) is longer than `n`:
      the column never passes `n` while the output is written. */
  predicate LinesAtMost(out: seq<char>, n: nat) {
    forall k :: 0 <= k <= |out| ==> Column(out[..k]) <= n
  }

  /** What lineWrap keeps true between calls: the pending line is at most
      MaxLine long, the output is at the start of a line, and no output line
      is longer than MaxLine. */
  predicate PageOk(p: Page) {
    |p.line| <= MaxLine && Column(p.out) == 0 && LinesAtMost(p.out, MaxLine)
  }

  lemma {:induction false} ColumnAtMostLength(s: seq<char>)
    ensures Column(s) <= |s|
    decreases |s|
  {
    if s != [] && s[|s| - 1] != '\n' {
      ColumnAtMostLength(s[..|s| - 1]);
    }
  }

  /** After a newline, the column only counts what was written since. */
  lemma {:induction false} ColumnAfterNewline(a: seq<char>, b: seq<char>)
    requires Column(a) == 0
    ensures Column(a + b) == Column(b)
    decreases |b|
  {
    if b == [] {
      assert a + b == a;
    } else {
      assert (a + b)[..|a + b| - 1] == a + b[..|b| - 1];
      ColumnAfterNewline(a, b[..|b| - 1]);
    }
  }

  /** Writing a piece of at most `n` characters and a newline at the start of
      a line keeps every line at most `n` long and ends at the start of a line. */
  lemma WriteLine(out: seq<char>, piece: seq<char>, n: nat)
    requires Column(out) == 0 && LinesAtMost(out, n) && |piece| <= n
    ensures Column(out + piece + "\n") == 0
    ensures LinesAtMost(out + piece + "\n", n)
  {
    var w := out + piece + "\n";
    forall k | 0 <= k <= |w| ensures Column(w[..k]) <= n {
      if k <= |out| {
        assert w[..k] == out[..k];
      } else if k <= |out| + |piece| {
        assert w[..k] == out + piece[..k - |out|];
        ColumnAfterNewline(out, piece[..k - |out|]);
        ColumnAtMostLength(piece[..k - |out|]);
      } else {
        assert w[..k] == w;
      }
    }
  }

  // ---------------------------------------------------------------------------
  // Properties of the wrap

  /** One pass of the wrap loop: the line is the written piece, the one
      dropped character and the rest, in that order; what is written next is
      that piece and a newline, and the loop goes on with the rest as its
      line; the piece is at most
      MaxLine - 1 long, and the break is at the last whitespace among the first
      MaxLine characters, or at MaxLine - 1 when there is none. */
  lemma WrapPass(line: seq<char>, out: seq<char>)
    requires |line| > MaxLine
    ensures var b := BreakIndex(line);
            && line == line[..b] + [line[b]] + line[b + 1..]
            && Drain(Page(line, out)).out[..|out| + b + 1] == out + line[..b] + "\n"
            && |line[..b]| < MaxLine
            && Drain(Page(line, out)) == Drain(Page(line[b + 1..], out + line[..b] + "\n"))
            && ((exists j :: 0 <= j < MaxLine && IsSpace(line[j])) ==>
                  IsSpace(line[b]) && forall j :: b < j < MaxLine ==> !IsSpace(line[j]))
            && ((forall j :: 0 <= j < MaxLine ==> !IsSpace(line[j])) ==> b == MaxLine - 1)
  {
    var b := BreakIndex(line);
    assert line == line[..b] + [line[b]] + line[b + 1..];
    var written := out + line[..b] + "\n";
    assert Drain(Page(line, out)) == Drain(Page(line[b + 1..], written));
    assert |written| == |out| + b + 1;
  }

  /** `w` is the front of `line`, position by position, with some characters
      replaced by newlines, and `rest` is the remainder of `line`. */
  predicate WrittenFrom(w: seq<char>, line: seq<char>, rest: seq<char>) {
    && |w| + |rest| == |line|
    && rest == line[|w|..]
    && forall k :: 0 <= k < |w| ==> w[k] == line[k] || w[k] == '\n'
  }

  /** One pass in front of the rest of the loop's writing: if the output
      after the pass's piece and newline was written from the rest of the
      line, then the output after the old output was written from the whole
      line. */
  lemma PassWrittenFrom(out: seq<char>, line: seq<char>, b: nat, rout: seq<char>, rest: seq<char>)
    requires b < |line|
    requires |out + line[..b] + "\n"| <= |rout| && rout[..|out + line[..b] + "\n"|] == out + line[..b] + "\n"
    requires WrittenFrom(rout[|out + line[..b] + "\n"|..], line[b + 1..], rest)
    ensures rout[..|out|] == out
    ensures WrittenFrom(rout[|out|..], line, rest)
  {
    var n := |out + line[..b] + "\n"|;
    var w := rout[n..];
    var v := rout[|out|..];
    assert rout[..|out|] == rout[..n][..|out|];
    assert v == rout[..n][|out|..] + w;
    assert v == line[..b] + "\n" + w;
    forall k | 0 <= k < |v|
      ensures v[k] == line[k] || v[k] == '\n'
    {
      if k > b {
        assert v[k] == w[k - b - 1];
        assert line[b + 1..][k - b - 1] == line[k];
      }
    }
    assert rest == line[b + 1..][|w|..] == line[|v|..];
  }

  /** The wrap loop loses nothing but the break characters: it keeps the old
      output, writes the front of the line position by position with each
      break character replaced by a newline, and leaves exactly the rest of
      the line pending. */
  lemma {:induction false} DrainConserves(p: Page)
    ensures Drain(p).out[..|p.out|] == p.out
    ensures WrittenFrom(Drain(p).out[|p.out|..], p.line, Drain(p).line)
    decreases |p.line|
  {
    if |p.line| > MaxLine {
      var b := BreakIndex(p.line);
      var q := Page(p.line[b + 1..], p.out + p.line[..b] + "\n");
      DrainConserves(q);
      PassWrittenFrom(p.out, p.line, b, Drain(q).out, Drain(q).line);
    } else {
      assert p.out[|p.out|..] == [] && p.line[0..] == p.line;
    }
  }

  /** The wrap loop keeps the output lines at most MaxLine long. */
  lemma {:induction false} DrainKeepsLines(p: Page)
    requires Column(p.out) == 0 && LinesAtMost(p.out, MaxLine)
    ensures PageOk(Drain(p))
    decreases |p.line|
  {
    if |p.line| > MaxLine {
      var b := BreakIndex(p.line);
      var q := Page(p.line[b + 1..], p.out + p.line[..b] + "\n");
      WriteLine(p.out, p.line[..b], MaxLine);
      DrainKeepsLines(q);
      assert Drain(p) == Drain(q);
    } else {
      assert Drain(p) == p;
    }
  }

  /** Every lineWrap call keeps the page invariant: a flush writes a line of
      at most MaxLine characters, any other fragment is drained. */
  lemma WrappedKeepsPageOk(p: Page, text: seq<char>)
    requires PageOk(p)
    ensures PageOk(Wrapped(p, text))
  {
    if text == "\n" {
      WriteLine(p.out, p.line, MaxLine);
    } else {
      DrainKeepsLines(Page(p.line + text, p.out));
    }
  }

  /** A fragment other than a lone newline that still fits on the pending
      line is only appended: nothing is written. */
  lemma FittingFragmentAppended(p: Page, text: seq<char>)
    requires text != "\n" && |p.line| + |text| <= MaxLine
    ensures Wrapped(p, text) == Page(p.line + text, p.out)
  {
  }

  /** A hundred characters without whitespace: the first pass falls back to
      index 77, writes the 77 characters before it and drops the character at
      77, leaving the last 22 characters pending. */
  lemma NoWhitespaceHundred(line: seq<char>, out: seq<char>)
    requires |line| == 100 && forall j :: 0 <= j < |line| ==> !IsSpace(line[j])
    ensures Drain(Page(line, out)) == Page(line[78..], out + line[..77] + "\n")
  {
    var b := BreakIndex(line);
    assert b == 77;
    assert |line[b + 1..]| == 22;
  }

  // ---------------------------------------------------------------------------
  // The mutable wrapper

  /** The global `Line` buffer together with standard output. */
  class Wrapper {
    var line: seq<char>
    var out: seq<char>

    function Contents(): Page
      reads this
    {
      Page(line, out)
    }

    ghost predicate Valid()
      reads this
    {
      PageOk(Contents())
    }

    constructor ()
      ensures Valid() && line == [] && out == []
    {
      line := [];
      out := [];
    }

    /** lineWrap: flush on a lone newline; otherwise append and wrap. */
    method LineWrap(text: seq<char>)
      requires Valid()
      modifies this
      ensures Valid()
      ensures Contents() == Wrapped(old(Contents()), text)
      ensures text == "\n" ==> line == [] && out == old(out) + old(line) + "\n"
      ensures text != "\n" ==> |line| <= MaxLine
    {
      ghost var target := Wrapped(Contents(), text);
      WrappedKeepsPageOk(Contents(), text);
      if text == "\n" {
        line := line + text;
        out := out + line;
        line := [];
        assert Contents() == target;
        return;
      }
      line := line + text;
      while |line| > MaxLine
        invariant Drain(Contents()) == target
        decreases |line|
      {
        var i := 0;
        var blank := MaxLine - 1;
        // the last whitespace among the first MaxLine characters
        while i < MaxLine
          invariant 0 <= i <= MaxLine
          invariant blank == BreakAt(line, i)
        {
          if IsSpace(line[i]) {
            blank := i;
          }
          i := i + 1;
        }
        var part := line[..blank];
        out := out + part + "\n";
        line := line[blank + 1..];
      }
    }
  }
}
