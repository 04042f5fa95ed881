/** Splitting a line into its maximal runs of non-blank characters. */
module Tokens {

  predicate Blank(c: char) { c == ' ' || c == '\t' }

  predicate AllBlank(s: string) { forall i :: 0 <= i < |s| ==> s[i] == ' ' || s[i] == '\t' }

  predicate NoBlank(s: string) { forall i :: 0 <= i < |s| ==> s[i] != ' ' && s[i] != '\t' }

  /** How far the leading run of blanks, or of non-blanks, of s reaches. */
  function Span(s: string, blanks: bool): (n: nat)
    ensures n <= |s|
    ensures forall i :: 0 <= i < n ==> Blank(s[i]) == blanks
    ensures n < |s| ==> Blank(s[n]) != blanks
  {
    if s == "" || Blank(s[0]) != blanks then 0 else 1 + Span(s[1..], blanks)
  }

  /** The tokens of a line: its maximal non-blank runs, in order. */
  function Split(s: string): (ts: seq<string>)
    decreases |s|
  {
    var a := Span(s, true);
    var b := Span(s[a..], false);
    if b == 0 then [] else [s[a..a + b]] + Split(s[a + b..])
  }

  lemma SplitIs(s: string, a: nat, b: nat)
    requires a == Span(s, true) && b == Span(s[a..], false)
    ensures Split(s) == if b == 0 then [] else [s[a..a + b]] + Split(s[a + b..])
  {
    hide Span;
  }

  /** Splitting at the end of the leading blanks and at the end of the token after them. */
  lemma SplitStep(line: string, p: nat, from: nat, to: nat)
    requires p <= from <= to <= |line|
    requires from == p + Span(line[p..], true) && to == from + Span(line[from..], false)
    ensures Split(line[p..]) == if to == from then [] else [line[from..to]] + Split(line[to..])
  {
    hide Span, Split;
    assert line[p..][from - p..] == line[from..];
    assert line[p..][to - p..] == line[to..];
    assert line[p..][from - p..to - p] == line[from..to];
    SplitIs(line[p..], from - p, to - from);
  }

  ghost predicate AllTokens(ts: seq<string>) {
    forall i :: 0 <= i < |ts| ==> ts[i] != "" && NoBlank(ts[i])
  }

  lemma {:induction false} SplitGivesTokens(s: string)
    ensures AllTokens(Split(s))
    decreases |s|
  {
    hide Split, Span;
    var from := Span(s, true);
    var to := from + Span(s[from..], false);
    assert s[0..] == s;
    SplitStep(s, 0, from, to);
    if from < to {
      SplitGivesTokens(s[to..]);
      assert s[from..to] == s[from..][..to - from];
    }
  }

  /** The tokens laid out on a line: gaps[0], then each token followed by its gap. */
  function Layout(ts: seq<string>, gaps: seq<string>): string
    requires |gaps| == |ts| + 1
  {
    if ts == [] then gaps[0] else gaps[0] + ts[0] + Layout(ts[1..], gaps[1..])
  }

  /** Gaps of blanks, not empty between two tokens. */
  ghost predicate GapsOk(gaps: seq<string>) {
    && (forall i :: 0 <= i < |gaps| ==> AllBlank(gaps[i]))
    && (forall i :: 1 <= i < |gaps| - 1 ==> gaps[i] != "")
  }

  lemma {:induction false} SpanOfConcat(s: string, t: string, blanks: bool)
    requires forall i :: 0 <= i < |s| ==> Blank(s[i]) == blanks
    requires t == "" || Blank(t[0]) != blanks
    ensures Span(s + t, blanks) == |s|
  {
    if s == "" {
      assert s + t == t;
    } else {
      assert (s + t)[1..] == s[1..] + t;
      SpanOfConcat(s[1..], t, blanks);
    }
  }

  lemma LayoutStart(ts: seq<string>, gaps: seq<string>)
    requires |gaps| == |ts| + 1 && AllTokens(ts) && GapsOk(gaps) && gaps[0] != ""
    ensures Layout(ts, gaps) != "" && Blank(Layout(ts, gaps)[0])
  {
    assert Layout(ts, gaps)[0] == gaps[0][0];
  }

  /** Splitting undoes laying out, whatever the blanks between, before and after the tokens. */
  lemma {:induction false} SplitUndoesLayout(ts: seq<string>, gaps: seq<string>)
    requires |gaps| == |ts| + 1 && AllTokens(ts) && GapsOk(gaps)
    ensures Split(Layout(ts, gaps)) == ts
  {
    hide Span, Split;
    var line := Layout(ts, gaps);
    if ts == [] {
      assert gaps[0] + "" == gaps[0];
      SpanOfConcat(gaps[0], "", true);
      SpanOfConcat("", "", false);
      assert line[0..] == line && line[|line|..] == "" && "" + "" == "";
      SplitStep(line, 0, |line|, |line|);
    } else {
      var t, rest := ts[0], Layout(ts[1..], gaps[1..]);
      assert AllBlank(gaps[0]) && AllBlank(gaps[1]);
      assert line == gaps[0] + (t + rest);
      SpanOfConcat(gaps[0], t + rest, true);
      if |ts| > 1 {
        LayoutStart(ts[1..], gaps[1..]);
      } else {
        assert rest == gaps[1];
      }
      SpanOfConcat(t, rest, false);
      var from, to := |gaps[0]|, |gaps[0]| + |t|;
      assert line[0..] == line && line[from..] == t + rest && line[from..to] == t && line[to..] == rest;
      SplitStep(line, 0, from, to);
      SplitUndoesLayout(ts[1..], gaps[1..]);
    }
  }

  lemma SpanIsRun(s: string, blanks: bool)
    ensures forall i :: 0 <= i < Span(s, blanks) ==> Blank(s[i]) == blanks
    ensures Span(s, blanks) < |s| ==> Blank(s[Span(s, blanks)]) != blanks
  {
  }

  /** Every line is its own tokens laid out: they hold no blanks, and nothing but blanks is dropped. */
  lemma {:induction false} SplitLosesNothing(s: string) returns (gaps: seq<string>)
    ensures AllTokens(Split(s))
    ensures |gaps| == |Split(s)| + 1 && GapsOk(gaps) && Layout(Split(s), gaps) == s
    ensures s != "" && Blank(s[0]) ==> gaps[0] != ""
    decreases |s|
  {
    hide Split, Span, Layout;
    SplitGivesTokens(s);
    var from := Span(s, true);
    var to := from + Span(s[from..], false);
    SpanIsRun(s, true);
    SpanIsRun(s[from..], false);
    assert s[0..] == s;
    SplitStep(s, 0, from, to);
    if to == from {
      gaps := [s];
      LayoutIs([], gaps);
    } else {
      var rest := SplitLosesNothing(s[to..]);
      gaps := [s[..from]] + rest;
      var ts := Split(s);
      assert ts[1..] == Split(s[to..]) && gaps[1..] == rest && ts[0] == s[from..to];
      LayoutIs(ts, gaps);
      assert s == s[..from] + s[from..to] + s[to..];
      assert to < |s| ==> s[to] == s[from..][to - from] && s[to..] != "";
      SplitGivesTokens(s[to..]);
      EmptyLayout(Split(s[to..]), rest);
      assert |rest| > 1 ==> rest[0] != "";
    }
  }

  lemma LayoutIs(ts: seq<string>, gaps: seq<string>)
    requires |gaps| == |ts| + 1
    ensures Layout(ts, gaps) == if ts == [] then gaps[0] else gaps[0] + ts[0] + Layout(ts[1..], gaps[1..])
  {
  }

  /** The end of the line has no tokens. */
  lemma EmptyLayout(ts: seq<string>, gaps: seq<string>)
    requires |gaps| == |ts| + 1 && (forall i :: 0 <= i < |ts| ==> ts[i] != "")
    ensures ts != [] ==> Layout(ts, gaps) != ""
  {
  }
}

/** The scanner: a cursor on the line that finds the next token when it is asked for it. */
module ShellScanner {
  import opened Options
  import opened Tokens

  class Scanner {
    const str: string
    var eos: bool
    var pos: nat
    var curr: Option<string>

    ghost predicate Valid()
      reads this
    {
      pos <= |str|
    }

    /** The tokens not yet eaten, the current one first. */
    ghost function Remaining(): seq<string>
      requires Valid()
      reads this
    {
      if eos then []
      else (if curr.Some? then [curr.value] else []) + Split(str[pos..])
    }

    /** The scanner has looked: it has a current token or has seen the end. */
    ghost predicate Settled()
      reads this
    {
      eos || curr.Some?
    }

    constructor (s: string)
      ensures Valid() && Remaining() == Split(s) && str == s
    {
      str, eos, pos, curr := s, false, 0, None;
      new;
      assert str[0..] == s;
    }

    /** The first position from p on that is not a blank, or is one. */
    method Skip(p: nat, blanks: bool) returns (q: nat)
      requires p <= |str|
      ensures q == p + Span(str[p..], blanks) && q <= |str|
    {
      q := p;
      while q < |str| && Blank(str[q]) == blanks
        invariant p <= q <= |str|
        invariant Span(str[p..], blanks) == q - p + Span(str[q..], blanks)
      {
        assert str[q..][1..] == str[q + 1..];
        q := q + 1;
      }
    }

    /** Move to the next token; none at the end. */
    method NextToken() returns (r: Option<string>)
      requires Valid()
      modifies `eos, `pos, `curr
      ensures Valid() && Settled()
      ensures Remaining() == if old(!eos && curr.Some?) then old(Remaining())[1..] else old(Remaining())
      ensures r == if Remaining() == [] then None else Some(Remaining()[0])
    {
      if eos {
        return None;
      }
      hide Span, Split;
      var from := Skip(pos, true);
      var to := Skip(from, false);
      SplitStep(str, pos, from, to);
      if to == from {
        eos := true;
        return None;
      }
      curr := Some(str[from..to]);
      pos := to;
      return curr;
    }

    /** The current token, found on the first call; none at the end. */
    method Current() returns (r: Option<string>)
      requires Valid()
      modifies `eos, `pos, `curr
      ensures Valid() && Settled() && Remaining() == old(Remaining())
      ensures r == if Remaining() == [] then None else Some(Remaining()[0])
    {
      if eos {
        return None;
      }
      if curr.Some? {
        return curr;
      }
      r := NextToken();
    }

    /** Whether the current token is s. */
    method Compare(s: string) returns (r: bool)
      requires Valid()
      modifies `eos, `pos, `curr
      ensures Valid() && Settled() && Remaining() == old(Remaining())
      ensures r <==> Remaining() != [] && Remaining()[0] == s
    {
      var _ := Current();
      if eos {
        return false;
      }
      return s == curr.value;
    }

    /** Move past the current token if it is s. */
    method Eat(s: string) returns (r: bool)
      requires Valid()
      modifies `eos, `pos, `curr
      ensures Valid() && Settled()
      ensures r <==> old(Remaining()) != [] && old(Remaining())[0] == s
      ensures Remaining() == if r then old(Remaining())[1..] else old(Remaining())
    {
      r := Compare(s);
      if r {
        var _ := NextToken();
      }
    }
  }
}
