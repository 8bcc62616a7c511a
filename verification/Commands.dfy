/** The client program's command line: in-place tokenising and unique-prefix command lookup.  Strings are
    C strings: the character past the end reads as NUL. */
module Commands {
  const NUL: char := '\0'

  function At(s: string, i: nat): char { if i < |s| then s[i] else NUL }

  predicate CStr(s: string) { NUL !in s }

  // ---------- find_command ----------

  /** `name` abbreviates the longer command `c`. */
  predicate Abbreviates(name: string, c: string) { name < c }

  /** Index of the command `name` selects, or -1 for NULL: the first exact match if there is one, otherwise
      the only command that a nonempty name abbreviates, otherwise none. */
  method FindCommand(table: seq<string>, name: string) returns (found: int)
    requires CStr(name) && forall c :: c in table ==> CStr(c)
    ensures -1 <= found < |table|
    ensures name in table ==> found >= 0 && table[found] == name && name !in table[..found]
    ensures name !in table && found >= 0 ==>
              && name != "" && Abbreviates(name, table[found])
              && forall j :: 0 <= j < |table| && j != found ==> !Abbreviates(name, table[j])
    ensures name !in table && found < 0 ==>
              || name == ""
              || (forall j :: 0 <= j < |table| ==> !Abbreviates(name, table[j]))
              || (exists i, j :: 0 <= i < j < |table| && Abbreviates(name, table[i]) && Abbreviates(name, table[j]))
  {
    var best, mostMatched, numMatched := -1, 0, 0;
    for i := 0 to |table|
      invariant name !in table[..i] && 0 <= numMatched
      invariant name == "" ==> best == -1 && mostMatched == 0
      invariant name != "" && numMatched == 0 ==> mostMatched == 0 && best == -1
      invariant name != "" && numMatched > 0 ==> mostMatched == |name| && 0 <= best < i && Abbreviates(name, table[best])
      invariant numMatched == 0 ==> forall j :: 0 <= j < i ==> !Abbreviates(name, table[j])
      invariant numMatched == 1 && name != "" ==> forall j :: 0 <= j < i && j != best ==> !Abbreviates(name, table[j])
      invariant numMatched > 1 && name != "" ==> exists j :: best < j < i && Abbreviates(name, table[j])
    {
      var c, k := table[i], 0;
      assert c in table;
      while At(c, k) == At(name, k)
        invariant 0 <= k <= |name| && k <= |c| && c[..k] == name[..k]
        decreases |name| - k
      {
        if At(c, k) == NUL {
          assert c == c[..k] && name == name[..k];
          return i;
        }
        k := k + 1;
      }
      assert c != name;
      if At(name, k) != NUL {
        assert !Abbreviates(name, c);
        continue;
      }
      assert k == |name| && Abbreviates(name, c);
      if k > mostMatched {
        mostMatched, numMatched, best := k, 1, i;
      } else if k == mostMatched {
        numMatched := numMatched + 1;
      }
    }
    return if numMatched == 1 then best else -1;
  }

  // ---------- Tokens ----------

  /** isspace: the blank, or a tab, newline, vertical tab, form feed or carriage return. */
  predicate IsSpace(c: char) { c == ' ' || 9 <= c as int <= 13 }

  /** The six characters of isspace in the C locale. */
  lemma SpaceCharacters(c: char)
    ensures IsSpace(c) <==> c in [' ', '\t', '\n', '\U{B}', '\U{C}', '\r']
  {}

  predicate Blank(s: string) { forall i :: 0 <= i < |s| ==> IsSpace(s[i]) }

  predicate Solid(s: string) { s != "" && forall i :: 0 <= i < |s| ==> !IsSpace(s[i]) }

  /** How many characters before the first space. */
  function RunLen(s: string): (n: nat)
    ensures n <= |s| && (forall i :: 0 <= i < n ==> !IsSpace(s[i])) && (n < |s| ==> IsSpace(s[n]))
  {
    if s == "" || IsSpace(s[0]) then 0 else 1 + RunLen(s[1..])
  }

  function Tokens(s: string): seq<string>
    decreases |s|
  {
    if s == "" then []
    else if IsSpace(s[0]) then Tokens(s[1..])
    else [s[..RunLen(s)]] + Tokens(s[RunLen(s)..])
  }

  /** A maximal run of non-space characters of `s`. */
  predicate MaximalRun(s: string, a: nat, b: nat)
  {
    && a < b <= |s| && (forall i :: a <= i < b ==> !IsSpace(s[i]))
    && (a == 0 || IsSpace(s[a - 1])) && (b == |s| || IsSpace(s[b]))
  }

  predicate Covered(spans: seq<(nat, nat)>, i: nat) { exists k :: 0 <= k < |spans| && spans[k].0 <= i < spans[k].1 }

  predicate Spanned(s: string, tok: string, span: (nat, nat)) { MaximalRun(s, span.0, span.1) && tok == s[span.0..span.1] }

  /** From position `from` on, `spans` are the maximal runs of `s`: each token spans one, in order, and no
      non-space character is missed. */
  predicate Runs(s: string, from: nat, toks: seq<string>, spans: seq<(nat, nat)>)
  {
    && |spans| == |toks|
    && (forall k :: 0 <= k < |spans| ==> Spanned(s, toks[k], spans[k]) && from <= spans[k].0)
    && (forall k :: 0 <= k < |spans| - 1 ==> spans[k].1 < spans[k + 1].0)
    && (forall i :: from <= i < |s| && !IsSpace(s[i]) ==> Covered(spans, i))
  }

  lemma CoveredMore(first: (nat, nat), spans: seq<(nat, nat)>, i: nat)
    requires first.0 <= i < first.1 || Covered(spans, i)
    ensures Covered([first] + spans, i)
  {
    var all := [first] + spans;
    if first.0 <= i < first.1 {
      assert all[0].0 <= i < all[0].1;
    } else {
      var k :| 0 <= k < |spans| && spans[k].0 <= i < spans[k].1;
      assert all[k + 1].0 <= i < all[k + 1].1;
    }
  }

  lemma OneMoreRun(s: string, from: nat, end: nat, toks: seq<string>, spans: seq<(nat, nat)>)
    requires MaximalRun(s, from, end) && Runs(s, end, toks, spans)
    ensures Runs(s, from, [s[from..end]] + toks, [(from, end)] + spans)
  {
    var all := [(from, end)] + spans;
    assert Spanned(s, s[from..end], (from, end));
    if spans != [] {
      assert Spanned(s, toks[0], spans[0]);
    }
    hide Spanned, Covered, IsSpace;
    forall k | 0 <= k < |all|
      ensures Spanned(s, ([s[from..end]] + toks)[k], all[k]) && from <= all[k].0
    {
      if k > 0 {
        assert all[k] == spans[k - 1] && ([s[from..end]] + toks)[k] == toks[k - 1];
      }
    }
    forall k | 0 <= k < |all| - 1 ensures all[k].1 < all[k + 1].0 {
      if k > 0 {
        assert all[k] == spans[k - 1] && all[k + 1] == spans[k];
      }
    }
    forall i | from <= i < |s| && !IsSpace(s[i]) ensures Covered(all, i) {
      CoveredMore((from, end), spans, i);
    }
  }

  /** The token that starts at a non-space position, and the run it spans. */
  lemma RunHere(s: string, from: nat) returns (end: nat)
    requires from < |s| && !IsSpace(s[from]) && (from == 0 || IsSpace(s[from - 1]))
    ensures MaximalRun(s, from, end) && Tokens(s[from..]) == [s[from..end]] + Tokens(s[end..])
  {
    var rest := s[from..];
    end := from + RunLen(rest);
    assert rest[RunLen(rest)..] == s[end..] && rest[..RunLen(rest)] == s[from..end];
    forall i | from <= i < end ensures !IsSpace(s[i]) {
      assert s[i] == rest[i - from];
    }
    assert end < |s| ==> s[end] == rest[RunLen(rest)];
  }

  lemma SpaceHere(s: string, from: nat, spans: seq<(nat, nat)>)
    requires from < |s| && IsSpace(s[from])
    ensures Tokens(s[from..]) == Tokens(s[from + 1..])
    ensures Runs(s, from + 1, Tokens(s[from + 1..]), spans) ==> Runs(s, from, Tokens(s[from..]), spans)
  {
    assert s[from..][1..] == s[from + 1..];
    hide Spanned;
  }

  /** Tokens are exactly the maximal non-space runs, in order. */
  lemma {:induction false} TokensAreRuns(s: string, from: nat) returns (spans: seq<(nat, nat)>)
    requires from <= |s| && (from == 0 || IsSpace(s[from - 1]) || from == |s| || IsSpace(s[from]))
    ensures Runs(s, from, Tokens(s[from..]), spans)
    decreases |s| - from
  {
    hide Runs, Tokens;
    if from == |s| {
      spans := [];
      NoRuns(s);
    } else if IsSpace(s[from]) {
      spans := TokensAreRuns(s, from + 1);
      SpaceHere(s, from, spans);
    } else {
      var end := RunHere(s, from);
      spans := TokensAreRuns(s, end);
      OneMoreRun(s, from, end, Tokens(s[end..]), spans);
      spans := [(from, end)] + spans;
    }
  }

  lemma NoRuns(s: string)
    ensures Runs(s, |s|, Tokens(s[|s|..]), [])
  {}

  // ---------- Joining tokens again ----------

  lemma {:induction false} SkipBlank(gap: string, rest: string)
    requires Blank(gap)
    ensures Tokens(gap + rest) == Tokens(rest)
  {
    if gap == "" {
      assert gap + rest == rest;
    } else {
      assert (gap + rest)[1..] == gap[1..] + rest;
      SkipBlank(gap[1..], rest);
    }
  }

  lemma {:induction false} RunOf(t: string, rest: string)
    requires Solid(t) && (rest == "" || IsSpace(rest[0]))
    ensures RunLen(t + rest) == |t|
  {
    if |t| == 1 {
      assert (t + rest)[1..] == rest;
    } else {
      assert (t + rest)[1..] == t[1..] + rest;
      RunOf(t[1..], rest);
    }
  }

  lemma TakeSolid(t: string, rest: string)
    requires Solid(t) && (rest == "" || IsSpace(rest[0]))
    ensures Tokens(t + rest) == [t] + Tokens(rest)
  {
    RunOf(t, rest);
    assert (t + rest)[..|t|] == t && (t + rest)[|t|..] == rest;
  }

  /** Each word followed by its gap. */
  function Join(words: seq<string>, gaps: seq<string>): string
    requires |words| == |gaps|
  {
    if words == [] then "" else words[0] + gaps[0] + Join(words[1..], gaps[1..])
  }

  /** Whitespace of any kind and amount, except that only the last gap may be empty. */
  predicate Separates(gaps: seq<string>)
  {
    (forall i :: 0 <= i < |gaps| ==> Blank(gaps[i])) && (forall i :: 0 <= i < |gaps| - 1 ==> gaps[i] != "")
  }

  lemma {:induction false} JoinedTokens(words: seq<string>, gaps: seq<string>)
    requires |words| == |gaps| && Separates(gaps) && forall i :: 0 <= i < |words| ==> Solid(words[i])
    ensures Tokens(Join(words, gaps)) == words
  {
    if words != [] {
      var rest := Join(words[1..], gaps[1..]);
      JoinedTokens(words[1..], gaps[1..]);
      assert words[0] + gaps[0] + rest == words[0] + (gaps[0] + rest);
      if gaps[0] == "" {
        assert words[1..] == [] && rest == "";
      }
      TakeSolid(words[0], gaps[0] + rest);
      SkipBlank(gaps[0], rest);
    }
  }

  /** Tokenising is stable: joining the tokens of any line with any whitespace gives the same tokens. */
  lemma TokensStable(line: string, lead: string, gaps: seq<string>)
    requires |gaps| == |Tokens(line)| && Separates(gaps) && Blank(lead)
    ensures Tokens(lead + Join(Tokens(line), gaps)) == Tokens(line)
  {
    var spans := TokensAreRuns(line, 0);
    assert line[0..] == line;
    forall k | 0 <= k < |spans| ensures Solid(Tokens(line)[k]) {
      assert Spanned(line, Tokens(line)[k], spans[k]);
    }
    JoinedTokens(Tokens(line), gaps);
    SkipBlank(lead, Join(Tokens(line), gaps));
  }

  // ---------- parse_cmd ----------

  /** The C string `t` starts at `pos` of the buffer. */
  predicate HoldsAt(buf: seq<char>, pos: int, t: string)
  {
    0 <= pos && pos + |t| < |buf| && buf[pos..pos + |t|] == t && buf[pos + |t|] == NUL && CStr(t)
  }

  const SLOTS := 32

  /** From `p` on, the buffer still holds the original line and its terminator. */
  predicate Rest(buf: seq<char>, s: string, p: nat)
  {
    p <= |s| < |buf| && buf[|s|] == NUL && forall i :: p <= i < |s| ==> buf[i] == s[i]
  }

  /** Past the spaces at `p`. */
  method SkipSpaces(line: array<char>, p: nat, ghost s: string) returns (q: nat)
    requires Rest(line[..], s, p) && CStr(s)
    ensures p <= q <= |s| && Blank(s[p..q]) && !IsSpace(line[q]) && (line[q] == NUL <==> q == |s|)
  {
    q := p;
    while IsSpace(line[q])
      invariant p <= q <= |s| && forall i :: p <= i < q ==> IsSpace(s[i])
      decreases |s| - q
    {
      q := q + 1;
    }
  }

  /** Past the non-space characters at `p`. */
  method SkipToken(line: array<char>, p: nat, ghost s: string) returns (q: nat)
    requires Rest(line[..], s, p) && CStr(s) && p < |s| && !IsSpace(line[p])
    ensures p < q <= |s| && Solid(s[p..q]) && (q < |s| ==> IsSpace(s[q])) && (line[q] == NUL <==> q == |s|)
    ensures line[p..q] == s[p..q]
  {
    q := p;
    while line[q] != NUL && !IsSpace(line[q])
      invariant p <= q <= |s| && forall i :: p <= i < q ==> !IsSpace(s[i])
      decreases |s| - q
    {
      q := q + 1;
    }
  }

  /** What the tokens still to come contribute. */
  lemma NextToken(s: string, p: nat, q: nat, e: nat)
    requires p <= q <= e <= |s| && Blank(s[p..q]) && (q < e ==> Solid(s[q..e]) && (e < |s| ==> IsSpace(s[e])))
    requires q == e ==> q == |s|
    ensures q == |s| ==> Tokens(s[p..]) == []
    ensures q < e ==> Tokens(s[p..]) == [s[q..e]] + Tokens(s[e..])
    ensures q < e < |s| ==> Tokens(s[p..]) == [s[q..e]] + Tokens(s[e + 1..])
  {
    hide Tokens, Blank, Solid, IsSpace;
    NoTokens();
    assert s[p..] == s[p..q] + s[q..];
    SkipBlank(s[p..q], s[q..]);
    if q == |s| {
      assert s[q..] == "";
    }
    if q < e {
      assert s[q..] == s[q..e] + s[e..];
      assert e < |s| ==> s[e..][0] == s[e];
      TakeSolid(s[q..e], s[e..]);
      if e < |s| {
        SpaceHere(s, e, []);
      }
    }
  }

  lemma NoTokens()
    ensures Tokens("") == []
  {}

  /** The first tokens are in place, all ending before `p`. */
  predicate Placed(buf: seq<char>, argv: seq<int>, toks: seq<string>, argc: nat, p: nat)
    requires argc <= |toks| && argc <= |argv|
  {
    forall k :: 0 <= k < argc ==> HoldsAt(buf, argv[k], toks[k]) && argv[k] + |toks[k]| < p
  }

  lemma PlacedMore(buf: seq<char>, buf': seq<char>, argv: seq<int>, argv': seq<int>, toks: seq<string>,
                   argc: nat, p: nat, q: nat, e: nat)
    requires argc < |toks| && argc < |argv| == |argv'| && p <= q <= e < |buf| == |buf'|
    requires Placed(buf, argv, toks, argc, p) && argv' == argv[argc := q]
    requires buf'[..e] == buf[..e] && HoldsAt(buf', q, toks[argc]) && q + |toks[argc]| == e
    ensures Placed(buf', argv', toks, argc + 1, e + 1)
  {
    hide HoldsAt;
    forall k | 0 <= k < argc ensures HoldsAt(buf', argv'[k], toks[k]) && argv'[k] + |toks[k]| < e + 1 {
      HoldsStill(buf, buf', argv[k], toks[k], e);
    }
  }

  lemma HoldsStill(buf: seq<char>, buf': seq<char>, a: int, tok: string, e: nat)
    requires HoldsAt(buf, a, tok) && a + |tok| < e <= |buf| == |buf'| && buf'[..e] == buf[..e]
    ensures HoldsAt(buf', a, tok)
  {
    forall j | 0 <= j < e ensures buf'[j] == buf[j] {
      assert buf'[..e][j] == buf[..e][j];
    }
    var was, now := buf[a..a + |tok|], buf'[a..a + |tok|];
    forall i | 0 <= i < |tok| ensures now[i] == was[i] {
      assert now[i] == buf'[a + i] && was[i] == buf[a + i];
    }
  }

  /** Splits the line in place: NULs end the tokens and `argv` points at them.  The source has 32 slots, of
      which the last one used holds the final position, so at most 31 tokens are allowed. */
  method ParseLine(line: array<char>, ghost s: string, argv: array<int>) returns (argc: nat)
    requires |s| < line.Length && line[..|s|] == s && line[|s|] == NUL && CStr(s)
    requires argv.Length == SLOTS && |Tokens(s)| < SLOTS
    modifies line, argv
    ensures argc == |Tokens(s)|
    ensures forall k :: 0 <= k < argc ==> HoldsAt(line[..], argv[k], Tokens(s)[k])
    ensures argc < SLOTS && 0 <= argv[argc] <= |s| && line[argv[argc]] == NUL
    ensures forall i :: |s| <= i < line.Length ==> line[i] == old(line[i])
    ensures forall k :: argc < k < argv.Length ==> argv[k] == old(argv[k])
  {
    hide Tokens, HoldsAt, Placed, Solid, Blank, IsSpace, Rest;
    ghost var toks := Tokens(s);
    argc := 0;
    var p := 0;
    ghost var lim := 0;
    RestStarts(line[..], s);
    NonePlaced(line[..], argv[..], toks);
    while line[p] != NUL
      invariant 0 <= p <= |s| && Rest(line[..], s, p)
      invariant argc <= |toks| && toks[argc..] == Tokens(s[p..])
      invariant lim == p && Placed(line[..], argv[..], toks, argc, lim)
      invariant forall i :: |s| <= i < line.Length ==> line[i] == old(line[i])
      invariant forall k :: argc <= k < argv.Length ==> argv[k] == old(argv[k])
      decreases |s| - p
    {
      var q := SkipSpaces(line, p, s);
      if line[q] == NUL {
        NextToken(s, p, q, q);
        p := q;
        break;
      }
      RestLater(line[..], s, p, q);
      var e := SkipToken(line, q, s);
      NextToken(s, p, q, e);
      TakeOne(toks, argc, s[q..e], Tokens(s[e..]));
      if e < |s| {
        TakeOne(toks, argc, s[q..e], Tokens(s[e + 1..]));
      }
      RestLater(line[..], s, q, e);
      ghost var buf, args := line[..], argv[..];
      argv[argc] := q;
      if line[e] == NUL {
        TokenPlaced(line[..], q, e, s[q..e], s);
        PlacedMore(buf, line[..], args, argv[..], toks, argc, p, q, e);
        argc, p, lim := argc + 1, e, e + 1;
        break;
      }
      line[e] := NUL;
      assert line[..] == buf[e := NUL];
      TokenPlaced(line[..], q, e, s[q..e], s);
      PlacedMore(buf, line[..], args, argv[..], toks, argc, p, q, e);
      argc, p, lim := argc + 1, e + 1, e + 1;
    }
    RestEnds(line[..], s, p);
    ghost var args := argv[..];
    argv[argc] := p;
    AllPlaced(line[..], args, argv[..], toks, argc, lim, p);
  }

  lemma RestStarts(buf: seq<char>, s: string)
    requires |s| < |buf| && buf[..|s|] == s && buf[|s|] == NUL
    ensures Rest(buf, s, 0) && s[0..] == s
  {
    assert forall i :: 0 <= i < |s| ==> buf[i] == buf[..|s|][i];
  }

  /** Moving on, possibly after ending a token at `q`, keeps the rest of the line intact. */
  lemma RestLater(buf: seq<char>, s: string, p: nat, q: nat)
    requires Rest(buf, s, p) && p <= q <= |s|
    ensures Rest(buf, s, q) && (q < |s| ==> Rest(buf[q := NUL], s, q + 1))
  {}

  lemma RestEnds(buf: seq<char>, s: string, p: nat)
    requires Rest(buf, s, p) && CStr(s) && buf[p] == NUL
    ensures p == |s| && Tokens(s[p..]) == []
  {}

  lemma TakeOne(toks: seq<string>, k: nat, t: string, later: seq<string>)
    requires k <= |toks|
    ensures toks[k..] == [t] + later ==> k < |toks| && toks[k] == t && toks[k + 1..] == later
  {
    if toks[k..] == [t] + later {
      assert toks[k] == toks[k..][0] && toks[k + 1..] == toks[k..][1..];
    }
  }

  lemma NonePlaced(buf: seq<char>, argv: seq<int>, toks: seq<string>)
    ensures Placed(buf, argv, toks, 0, 0)
  {}

  lemma TokenPlaced(buf: seq<char>, q: nat, e: nat, t: string, s: string)
    requires q <= e < |buf| && e <= |s| && CStr(s) && t == s[q..e] && buf[q..e] == t && buf[e] == NUL
    ensures HoldsAt(buf, q, t)
  {}

  lemma AllPlaced(buf: seq<char>, argv: seq<int>, argv': seq<int>, toks: seq<string>, argc: nat, lim: nat, p: int)
    requires argc <= |toks| && argc < |argv| && argv' == argv[argc := p] && Placed(buf, argv, toks, argc, lim)
    ensures forall k :: 0 <= k < argc ==> HoldsAt(buf, argv'[k], toks[k])
  {}
}
