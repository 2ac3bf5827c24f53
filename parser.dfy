/**
 The edge-list line parser (`read_data` in main.rs): every line of the input
 is split on whitespace, and a line becomes a `(source, target)` edge only
 when it has exactly two tokens and both parse as `usize`. Every other line is
 skipped and the parse goes on. Opening and reading the file are not modelled:
 the lines arrive as a sequence of strings.
 */
module EdgeParser {
  import opened Wrappers

  /** A directed edge: (source id, target id). */
  type Edge = (nat, nat)

  /** The largest value of Rust's `usize` on a 64-bit target. */
  const UsizeMax: nat := 0xFFFF_FFFF_FFFF_FFFF

  // ---------------------------------------------------------------------------
  // Tokenising (`str::split_whitespace`)
  // ---------------------------------------------------------------------------

  /** The Unicode White_Space characters, the set `char::is_whitespace` uses. */
  predicate IsWhitespace(c: char)
  {
    var n := c as int;
    (0x09 <= n <= 0x0D) || n == 0x20 || n == 0x85 || n == 0xA0 || n == 0x1680
    || (0x2000 <= n <= 0x200A) || n == 0x2028 || n == 0x2029 || n == 0x202F
    || n == 0x205F || n == 0x3000
  }

  /** A token: a non-empty run of non-whitespace characters. */
  predicate IsWord(w: string)
  {
    |w| > 0 && forall i :: 0 <= i < |w| ==> !IsWhitespace(w[i])
  }

  predicate AllWhitespace(s: string)
  {
    forall i :: 0 <= i < |s| ==> IsWhitespace(s[i])
  }

  /** The length of the run of non-whitespace characters that starts `s`. */
  function WordLength(s: string): (n: nat)
    ensures n <= |s|
    ensures forall i :: 0 <= i < n ==> !IsWhitespace(s[i])
    ensures n == |s| || IsWhitespace(s[n])
  {
    if s == [] || IsWhitespace(s[0]) then 0 else 1 + WordLength(s[1..])
  }

  /** The whitespace-separated tokens of `s`, left to right. */
  function Tokens(s: string): (ts: seq<string>)
    ensures forall i :: 0 <= i < |ts| ==> IsWord(ts[i])
    decreases |s|
  {
    if s == [] then []
    else if IsWhitespace(s[0]) then Tokens(s[1..])
    else
      var n := WordLength(s);
      [s[..n]] + Tokens(s[n..])
  }

  /** Leading whitespace never changes the tokens. */
  lemma {:induction false} TokensSkipSpace(ws: string, s: string)
    requires AllWhitespace(ws)
    ensures Tokens(ws + s) == Tokens(s)
    decreases |ws|
  {
    if ws == [] {
      assert ws + s == s;
    } else {
      var t := ws + s;
      assert t[0] == ws[0] && IsWhitespace(t[0]);
      assert t[1..] == ws[1..] + s;
      TokensSkipSpace(ws[1..], s);
    }
  }

  /** A word followed by whitespace (or by nothing) is the next token. */
  lemma {:induction false} TokensWord(w: string, s: string)
    requires IsWord(w)
    requires s == [] || IsWhitespace(s[0])
    ensures Tokens(w + s) == [w] + Tokens(s)
  {
    WordLengthOfWord(w, s);
    assert (w + s)[..|w|] == w;
    assert (w + s)[|w|..] == s;
  }

  lemma {:induction false} WordLengthOfWord(w: string, s: string)
    requires forall i :: 0 <= i < |w| ==> !IsWhitespace(w[i])
    requires s == [] || IsWhitespace(s[0])
    ensures WordLength(w + s) == |w|
    decreases |w|
  {
    if w != [] {
      assert (w + s)[1..] == w[1..] + s;
      WordLengthOfWord(w[1..], s);
    } else {
      assert w + s == s;
    }
  }

  // ---------------------------------------------------------------------------
  // Number parsing (`str::parse::<usize>`)
  // ---------------------------------------------------------------------------

  predicate IsDigit(c: char)
  {
    '0' <= c <= '9'
  }

  predicate AllDigits(s: string)
  {
    forall i :: 0 <= i < |s| ==> IsDigit(s[i])
  }

  function DigitValue(c: char): nat
    requires IsDigit(c)
  {
    c as int - '0' as int
  }

  function DigitChar(d: nat): (c: char)
    requires d < 10
    ensures IsDigit(c) && DigitValue(c) == d
  {
    ('0' as int + d) as char
  }

  /** The value of a decimal digit string, most significant digit first. */
  function DecimalValue(ds: string): nat
    requires AllDigits(ds)
  {
    if ds == [] then 0 else 10 * DecimalValue(ds[..|ds| - 1]) + DigitValue(ds[|ds| - 1])
  }

  /** The shortest decimal numeral of `n`. */
  function Numeral(n: nat): (s: string)
    ensures |s| > 0 && AllDigits(s)
  {
    if n < 10 then [DigitChar(n)] else Numeral(n / 10) + [DigitChar(n % 10)]
  }

  /** The digits of a token once the optional leading `+` is dropped. */
  function Unsigned(tok: string): string
  {
    if |tok| > 0 && tok[0] == '+' then tok[1..] else tok
  }

  /**
   `str::parse::<usize>()`: an optional `+` sign, then one or more ASCII
   digits whose value fits in a `usize`. A `-` sign, an empty token, a lone
   `+`, any other character and an overflowing value are all rejected.
   */
  function ParseUsize(tok: string): (r: Option<nat>)
    ensures r.Some? ==> IsWord(tok) && r.value <= UsizeMax
  {
    var ds := Unsigned(tok);
    if ds != [] && AllDigits(ds) && DecimalValue(ds) <= UsizeMax then
      assert forall i :: 0 <= i < |tok| ==> IsDigit(tok[i]) || tok[i] == '+' by {
        forall i | 0 <= i < |tok| ensures IsDigit(tok[i]) || tok[i] == '+' {
          if tok[0] == '+' && i > 0 { assert tok[i] == ds[i - 1]; }
        }
      }
      Some(DecimalValue(ds))
    else
      None
  }

  lemma {:induction false} DecimalValueOfNumeral(n: nat)
    ensures DecimalValue(Numeral(n)) == n
  {
    if n >= 10 {
      var s := Numeral(n);
      assert s[..|s| - 1] == Numeral(n / 10);
      DecimalValueOfNumeral(n / 10);
    }
  }

  /** Parsing a printed number gives the number back, with or without a `+`. */
  lemma NumeralRoundTrip(n: nat)
    requires n <= UsizeMax
    ensures ParseUsize(Numeral(n)) == Some(n)
    ensures ParseUsize("+" + Numeral(n)) == Some(n)
  {
    DecimalValueOfNumeral(n);
    assert Unsigned("+" + Numeral(n)) == Numeral(n);
  }

  /** `k` zero digits. */
  function Zeros(k: nat): (z: string)
    ensures |z| == k && AllDigits(z)
    ensures forall i :: 0 <= i < k ==> z[i] == '0'
  {
    seq(k, _ => '0')
  }

  lemma {:induction false} ZerosOnly(k: nat)
    ensures DecimalValue(Zeros(k)) == 0
  {
    if k > 0 {
      assert Zeros(k)[..k - 1] == Zeros(k - 1);
      ZerosOnly(k - 1);
    }
  }

  /** Leading zeros do not change the value of a digit string. */
  lemma {:induction false} ZerosValue(k: nat, ds: string)
    requires AllDigits(ds)
    ensures AllDigits(Zeros(k) + ds) && DecimalValue(Zeros(k) + ds) == DecimalValue(ds)
    decreases |ds|
  {
    var z := Zeros(k) + ds;
    assert AllDigits(z) by {
      forall i | 0 <= i < |z| ensures IsDigit(z[i]) {
        if i >= k { assert z[i] == ds[i - k]; }
      }
    }
    if ds == [] {
      assert z == Zeros(k);
      ZerosOnly(k);
    } else {
      assert z[..|z| - 1] == Zeros(k) + ds[..|ds| - 1];
      ZerosValue(k, ds[..|ds| - 1]);
    }
  }

  /** Every non-empty digit string is some zeros followed by the shortest numeral of its value. */
  lemma {:induction false} DigitsAreZerosThenNumeral(ds: string) returns (k: nat)
    requires ds != [] && AllDigits(ds)
    ensures ds == Zeros(k) + Numeral(DecimalValue(ds))
    decreases |ds|
  {
    var p, d := ds[..|ds| - 1], ds[|ds| - 1];
    assert ds == p + [d];
    assert DigitChar(DigitValue(d)) == d;
    if p == [] {
      k := 0;
      assert ds == Zeros(0) + Numeral(DecimalValue(ds));
    } else {
      var j := DigitsAreZerosThenNumeral(p);
      if DecimalValue(p) == 0 {
        k := j + 1;
        assert Zeros(j) + Numeral(0) == Zeros(k);
      } else {
        k := j;
        var v := DecimalValue(ds);
        assert v / 10 == DecimalValue(p) && v % 10 == DigitValue(d);
        assert Numeral(v) == Numeral(DecimalValue(p)) + [d];
      }
    }
  }

  /**
   `ParseUsize` accepts a token with value `n` exactly when `n` fits in a
   `usize` and the token, past its optional `+`, is zeros followed by the
   numeral of `n`.
   */
  lemma ParseUsizeExact(tok: string, n: nat)
    ensures ParseUsize(tok) == Some(n) <==>
      n <= UsizeMax && exists k: nat :: Unsigned(tok) == Zeros(k) + Numeral(n)
  {
    var ds := Unsigned(tok);
    if ParseUsize(tok) == Some(n) {
      var k := DigitsAreZerosThenNumeral(ds);
      assert ds == Zeros(k) + Numeral(n);
    }
    if n <= UsizeMax && exists k: nat :: ds == Zeros(k) + Numeral(n) {
      var k: nat :| ds == Zeros(k) + Numeral(n);
      DecimalValueOfNumeral(n);
      ZerosValue(k, Numeral(n));
    }
  }

  /** Zeros before a numeral, with or without a `+`, are accepted and leave its value unchanged. */
  lemma LeadingZerosAccepted(k: nat, n: nat)
    requires n <= UsizeMax
    ensures ParseUsize(Zeros(k) + Numeral(n)) == Some(n)
    ensures ParseUsize("+" + Zeros(k) + Numeral(n)) == Some(n)
  {
    var ds := Zeros(k) + Numeral(n);
    assert IsDigit(ds[0]);
    assert Unsigned(ds) == ds;
    ParseUsizeExact(ds, n);
    assert "+" + Zeros(k) + Numeral(n) == "+" + ds;
    assert Unsigned("+" + ds) == ds;
    ParseUsizeExact("+" + ds, n);
  }

  /** Every numeral above `usize::MAX` overflows and is rejected, with or without a `+`: no value wraps around. */
  lemma OverflowRejected(n: nat)
    requires n > UsizeMax
    ensures ParseUsize(Numeral(n)) == None
    ensures ParseUsize("+" + Numeral(n)) == None
  {
    DecimalValueOfNumeral(n);
    assert Unsigned("+" + Numeral(n)) == Numeral(n);
  }

  /** A sign with no digits after it, a lone `+`, is rejected, and so is the empty token. */
  lemma NoDigitsRejected()
    ensures ParseUsize("+") == None
    ensures ParseUsize("") == None
  {
  }

  /** A token holding a character other than a digit (past an optional leading `+`) is rejected. */
  lemma NonDigitRejected(tok: string, i: nat)
    requires i < |Unsigned(tok)| && !IsDigit(Unsigned(tok)[i])
    ensures ParseUsize(tok) == None
  {
  }

  // ---------------------------------------------------------------------------
  // Lines and the whole input
  // ---------------------------------------------------------------------------

  /** The whitespace that starts `s`, and the rest: the rest has the same tokens. */
  lemma {:induction false} LeadingSpace(s: string) returns (ws: string, rest: string)
    ensures s == ws + rest && AllWhitespace(ws)
    ensures rest == [] || !IsWhitespace(rest[0])
    ensures Tokens(s) == Tokens(rest)
    decreases |s|
  {
    if s == [] || !IsWhitespace(s[0]) {
      ws, rest := [], s;
      assert s == ws + rest;
    } else {
      var ws';
      ws', rest := LeadingSpace(s[1..]);
      ws := [s[0]] + ws';
      assert s == [s[0]] + s[1..];
    }
  }

  /** A string without tokens is all whitespace. */
  lemma NoTokensAllWhitespace(s: string)
    requires Tokens(s) == []
    ensures AllWhitespace(s)
  {
    var ws, rest := LeadingSpace(s);
    assert rest == [];
    assert s == ws;
  }

  /** A string that starts with a non-whitespace character starts with its first token. */
  lemma FirstWord(r: string) returns (w: string, rest: string)
    requires r != [] && !IsWhitespace(r[0])
    ensures r == w + rest && IsWord(w)
    ensures rest == [] || IsWhitespace(rest[0])
    ensures Tokens(r) == [w] + Tokens(rest)
  {
    var n := WordLength(r);
    w, rest := r[..n], r[n..];
    assert r == w + rest;
  }

  /** Whitespace, then a word, then a rest that starts with whitespace: the word is the first token. */
  lemma SpaceThenWord(ws: string, w: string, rest: string)
    requires AllWhitespace(ws) && IsWord(w)
    requires rest == [] || IsWhitespace(rest[0])
    ensures Tokens(ws + w + rest) == [w] + Tokens(rest)
  {
    assert ws + w + rest == ws + (w + rest);
    TokensSkipSpace(ws, w + rest);
    TokensWord(w, rest);
  }

  /** A string with a token is whitespace, its first token, and a rest that starts with whitespace. */
  lemma SplitFirst(s: string) returns (pre: string, t: string, rest: string)
    requires Tokens(s) != []
    ensures s == pre + t + rest && AllWhitespace(pre) && IsWord(t)
    ensures rest == [] || IsWhitespace(rest[0])
    ensures Tokens(s) == [t] + Tokens(rest)
  {
    var r;
    pre, r := LeadingSpace(s);
    assert r != [];
    t, rest := FirstWord(r);
  }

  /** A string with one token is whitespace, that token, whitespace. */
  lemma OneTokenShape(s: string) returns (pre: string, t: string, post: string)
    requires |Tokens(s)| == 1
    ensures s == pre + t + post && AllWhitespace(pre) && AllWhitespace(post)
    ensures IsWord(t) && Tokens(s) == [t]
  {
    pre, t, post := SplitFirst(s);
    NoTokensAllWhitespace(post);
  }

  /** A line with two tokens is whitespace, a token, whitespace, a token, whitespace. */
  lemma TwoTokenShape(line: string) returns (pre: string, mid: string, post: string)
    requires |Tokens(line)| == 2
    ensures line == pre + Tokens(line)[0] + mid + Tokens(line)[1] + post
    ensures AllWhitespace(pre) && AllWhitespace(mid) && mid != [] && AllWhitespace(post)
  {
    var t1, s1, t2;
    pre, t1, s1 := SplitFirst(line);
    mid, t2, post := OneTokenShape(s1);
    assert s1 != [];
    assert Tokens(line) == [t1, t2];
    assert line == pre + t1 + mid + t2 + post;
  }

  /** Two words separated by whitespace, then a rest that starts with whitespace. */
  lemma TwoTokenPrefix(pre: string, t1: string, mid: string, t2: string, rest: string)
    requires AllWhitespace(pre) && AllWhitespace(mid) && mid != []
    requires IsWord(t1) && IsWord(t2)
    requires rest == [] || IsWhitespace(rest[0])
    ensures Tokens(pre + t1 + mid + t2 + rest) == [t1, t2] + Tokens(rest)
  {
    var tail := mid + t2 + rest;
    SpaceThenWord(pre, t1, tail);
    SpaceThenWord(mid, t2, rest);
    assert pre + t1 + mid + t2 + rest == pre + t1 + tail;
    TokensChain(pre + t1 + mid + t2 + rest, pre + t1 + tail, tail, t1, t2, Tokens(rest));
  }

  lemma TokensChain(line: string, same: string, tail: string, t1: string, t2: string, rest: seq<string>)
    requires line == same
    requires Tokens(same) == [t1] + Tokens(tail) && Tokens(tail) == [t2] + rest
    ensures Tokens(line) == [t1, t2] + rest
  {
  }

  /** Two words with whitespace between them, and any whitespace around them, are two tokens. */
  lemma TwoTokens(pre: string, t1: string, mid: string, t2: string, post: string)
    requires AllWhitespace(pre) && AllWhitespace(mid) && mid != [] && AllWhitespace(post)
    requires IsWord(t1) && IsWord(t2)
    ensures Tokens(pre + t1 + mid + t2 + post) == [t1, t2]
  {
    TwoTokenPrefix(pre, t1, mid, t2, post);
    TokensSkipSpace(post, []);
    assert post + [] == post;
  }

  /**
   The layout of a line that gives edge `(a, b)`: optional whitespace, a
   token parsing to `a`, some whitespace, a token parsing to `b`, optional
   whitespace.
   */
  predicate EdgeLayout(line: string, pre: string, t1: string, mid: string, t2: string, post: string, a: nat, b: nat)
  {
    line == pre + t1 + mid + t2 + post
    && AllWhitespace(pre) && AllWhitespace(mid) && mid != [] && AllWhitespace(post)
    && ParseUsize(t1) == Some(a) && ParseUsize(t2) == Some(b)
  }

  /** The edge one line denotes, or `None` when the line is skipped. */
  function ParseLine(line: string): (r: Option<Edge>)
    ensures r.Some? ==> r.value.0 <= UsizeMax && r.value.1 <= UsizeMax
  {
    var ts := Tokens(line);
    if |ts| != 2 then None
    else match (ParseUsize(ts[0]), ParseUsize(ts[1]))
      case (Some(a), Some(b)) => Some((a, b))
      case _ => None
  }

  /** Two tokens that parse, laid out as `EdgeLayout` says, give their edge. */
  lemma LayoutGivesEdge(pre: string, t1: string, mid: string, t2: string, post: string, a: nat, b: nat)
    requires EdgeLayout(pre + t1 + mid + t2 + post, pre, t1, mid, t2, post, a, b)
    ensures ParseLine(pre + t1 + mid + t2 + post) == Some((a, b))
  {
    TwoTokens(pre, t1, mid, t2, post);
  }

  /** A line gives edge `(a, b)` if and only if it has the layout of `EdgeLayout`. */
  lemma ParseLineLayout(line: string, a: nat, b: nat)
    ensures ParseLine(line) == Some((a, b)) <==>
      exists pre, t1, mid, t2, post :: EdgeLayout(line, pre, t1, mid, t2, post, a, b)
  {
    if ParseLine(line) == Some((a, b)) {
      var pre, mid, post := TwoTokenShape(line);
      assert EdgeLayout(line, pre, Tokens(line)[0], mid, Tokens(line)[1], post, a, b);
    }
    if exists pre, t1, mid, t2, post :: EdgeLayout(line, pre, t1, mid, t2, post, a, b) {
      var pre, t1, mid, t2, post :| EdgeLayout(line, pre, t1, mid, t2, post, a, b);
      LayoutGivesEdge(pre, t1, mid, t2, post, a, b);
    }
  }

  /**
   Any whitespace before, between and after two printed numbers: the line
   is the edge of those numbers.
   */
  lemma ParseFormattedLine(pre: string, a: nat, mid: string, b: nat, post: string)
    requires AllWhitespace(pre) && AllWhitespace(mid) && AllWhitespace(post)
    requires mid != []
    requires a <= UsizeMax && b <= UsizeMax
    ensures ParseLine(pre + Numeral(a) + mid + Numeral(b) + post) == Some((a, b))
  {
    NumeralRoundTrip(a);
    NumeralRoundTrip(b);
    LayoutGivesEdge(pre, Numeral(a), mid, Numeral(b), post, a, b);
  }

  /** A blank line (empty or only whitespace) gives no edge. */
  lemma BlankLineSkipped(line: string)
    requires AllWhitespace(line)
    ensures ParseLine(line) == None
  {
    TokensSkipSpace(line, []);
    assert line + [] == line;
  }

  /** A line holding a single token gives no edge. */
  lemma OneTokenLineSkipped(pre: string, w: string, post: string)
    requires AllWhitespace(pre) && IsWord(w) && AllWhitespace(post)
    ensures ParseLine(pre + w + post) == None
  {
    SpaceThenWord(pre, w, post);
    TokensSkipSpace(post, []);
    assert post + [] == post;
  }

  /** A line holding three tokens gives no edge. */
  lemma ThreeTokenLineSkipped(pre: string, w1: string, m1: string, w2: string, m2: string, w3: string, post: string)
    requires AllWhitespace(pre) && AllWhitespace(m1) && AllWhitespace(m2) && AllWhitespace(post)
    requires m1 != [] && m2 != []
    requires IsWord(w1) && IsWord(w2) && IsWord(w3)
    ensures ParseLine(pre + w1 + m1 + w2 + m2 + w3 + post) == None
  {
    var rest := m2 + w3 + post;
    assert pre + w1 + m1 + w2 + m2 + w3 + post == pre + w1 + m1 + w2 + rest;
    TwoTokenPrefix(pre, w1, m1, w2, rest);
    SpaceThenWord(m2, w3, post);
    TokensSkipSpace(post, []);
    assert post + [] == post;
  }

  /**
   A two-token line where either token holds a non-digit character past its
   optional `+` gives no edge.
   */
  lemma NonNumericLineSkipped(pre: string, t1: string, mid: string, t2: string, post: string, i: nat)
    requires AllWhitespace(pre) && AllWhitespace(mid) && mid != [] && AllWhitespace(post)
    requires IsWord(t1) && IsWord(t2)
    requires (i < |Unsigned(t1)| && !IsDigit(Unsigned(t1)[i])) || (i < |Unsigned(t2)| && !IsDigit(Unsigned(t2)[i]))
    ensures ParseLine(pre + t1 + mid + t2 + post) == None
  {
    TwoTokens(pre, t1, mid, t2, post);
    if i < |Unsigned(t1)| && !IsDigit(Unsigned(t1)[i]) {
      NonDigitRejected(t1, i);
    } else {
      NonDigitRejected(t2, i);
    }
  }

  /** A negative number is not a `usize`: a two-token line with a `-` sign gives no edge. */
  lemma NegativeLineSkipped(pre: string, t1: string, mid: string, t2: string, post: string)
    requires AllWhitespace(pre) && AllWhitespace(mid) && mid != [] && AllWhitespace(post)
    requires IsWord(t1) && IsWord(t2)
    requires t1[0] == '-' || t2[0] == '-'
    ensures ParseLine(pre + t1 + mid + t2 + post) == None
  {
    NonNumericLineSkipped(pre, t1, mid, t2, post, 0);
  }

  function EdgesOf(r: Option<Edge>): seq<Edge>
  {
    if r.Some? then [r.value] else []
  }

  /** The edges held by a sequence of per-line results, in order. */
  function Collect(rs: seq<Option<Edge>>): seq<Edge>
  {
    if rs == [] then []
    else Collect(rs[..|rs| - 1]) + EdgesOf(rs[|rs| - 1])
  }

  /** The result of every line, in line order. */
  function Parsed(lines: seq<string>): (rs: seq<Option<Edge>>)
    ensures |rs| == |lines|
  {
    seq(|lines|, i requires 0 <= i < |lines| => ParseLine(lines[i]))
  }

  /** The edges of all lines, in line order: the specification of `ReadData`. */
  function ParseEdges(lines: seq<string>): seq<Edge>
  {
    Collect(Parsed(lines))
  }

  lemma ParsedAppend(a: seq<string>, b: seq<string>)
    ensures Parsed(a + b) == Parsed(a) + Parsed(b)
  {
    forall i | 0 <= i < |a + b| ensures Parsed(a + b)[i] == (Parsed(a) + Parsed(b))[i] {
      if i < |a| {
        assert (a + b)[i] == a[i];
      } else {
        assert (a + b)[i] == b[i - |a|];
      }
    }
  }

  /** The edges of one more line are appended after the others. */
  lemma ParseEdgesSnoc(lines: seq<string>, line: string)
    ensures ParseEdges(lines + [line]) == ParseEdges(lines) + EdgesOf(ParseLine(line))
  {
    ParsedAppend(lines, [line]);
    var rs := Parsed(lines) + Parsed([line]);
    assert rs[..|rs| - 1] == Parsed(lines);
    assert rs[|rs| - 1] == Parsed([line])[0];
  }

  /** The edges of the first `i + 1` lines: those of the first `i`, then that of line `i`. */
  lemma ReadStep(lines: seq<string>, i: nat)
    requires i < |lines|
    ensures ParseEdges(lines[..i + 1]) == ParseEdges(lines[..i]) + EdgesOf(ParseLine(lines[i]))
  {
    assert lines[..i + 1] == lines[..i] + [lines[i]];
    ParseEdgesSnoc(lines[..i], lines[i]);
  }

  /** `read_data`: one forward pass that appends the edge of every well-formed line. */
  method ReadData(lines: seq<string>) returns (edges: seq<Edge>)
    ensures edges == ParseEdges(lines)
  {
    edges := [];
    for i := 0 to |lines|
      invariant edges == ParseEdges(lines[..i])
    {
      var r := ParseLine(lines[i]);
      ReadStep(lines, i);
      if r.Some? {
        edges := edges + [r.value];
      }
    }
    assert lines[..|lines|] == lines;
  }

  lemma {:induction false} CollectAppend(a: seq<Option<Edge>>, b: seq<Option<Edge>>)
    ensures Collect(a + b) == Collect(a) + Collect(b)
    decreases |b|
  {
    if b == [] {
      assert a + b == a;
    } else {
      var b' := b[..|b| - 1];
      assert (a + b)[..|a + b| - 1] == a + b';
      assert (a + b)[|a + b| - 1] == b[|b| - 1];
      CollectAppend(a, b');
    }
  }

  /** The edges of a concatenation are those of its halves, in order: a bad line never stops the parse. */
  lemma ParseEdgesAppend(a: seq<string>, b: seq<string>)
    ensures ParseEdges(a + b) == ParseEdges(a) + ParseEdges(b)
  {
    ParsedAppend(a, b);
    CollectAppend(Parsed(a), Parsed(b));
  }

  /** A skipped line contributes nothing wherever it stands. */
  lemma SkippedLineAddsNothing(a: seq<string>, line: string, b: seq<string>)
    requires ParseLine(line) == None
    ensures ParseEdges(a + [line] + b) == ParseEdges(a + b)
  {
    ParseEdgesAppend(a + [line], b);
    ParseEdgesSnoc(a, line);
    ParseEdgesAppend(a, b);
  }

  lemma {:induction false} CollectSound(rs: seq<Option<Edge>>, e: Edge)
    requires e in Collect(rs)
    ensures exists i :: 0 <= i < |rs| && rs[i] == Some(e)
    decreases |rs|
  {
    var init := rs[..|rs| - 1];
    if e in Collect(init) {
      CollectSound(init, e);
      var i :| 0 <= i < |init| && init[i] == Some(e);
      assert rs[i] == init[i];
    } else {
      assert rs[|rs| - 1] == Some(e);
    }
  }

  lemma {:induction false} CollectComplete(rs: seq<Option<Edge>>, e: Edge, i: nat)
    requires i < |rs| && rs[i] == Some(e)
    ensures e in Collect(rs)
    decreases |rs|
  {
    var init := rs[..|rs| - 1];
    if i < |init| {
      assert init[i] == rs[i];
      CollectComplete(init, e, i);
    }
  }

  /** Every output edge comes from some line. */
  lemma MemberSound(lines: seq<string>, e: Edge)
    requires e in ParseEdges(lines)
    ensures exists i :: 0 <= i < |lines| && ParseLine(lines[i]) == Some(e)
  {
    CollectSound(Parsed(lines), e);
    var i :| 0 <= i < |lines| && Parsed(lines)[i] == Some(e);
    assert ParseLine(lines[i]) == Some(e);
  }

  /** The edge of every well-formed line is in the output. */
  lemma MemberComplete(lines: seq<string>, e: Edge, i: nat)
    requires i < |lines| && ParseLine(lines[i]) == Some(e)
    ensures e in ParseEdges(lines)
  {
    CollectComplete(Parsed(lines), e, i);
  }

  /** An edge is in the output exactly when some line parses to it. */
  lemma ParseEdgesMember(lines: seq<string>, e: Edge)
    ensures e in ParseEdges(lines) <==> exists i :: 0 <= i < |lines| && ParseLine(lines[i]) == Some(e)
  {
    if e in ParseEdges(lines) {
      MemberSound(lines, e);
    }
    if exists i :: 0 <= i < |lines| && ParseLine(lines[i]) == Some(e) {
      var i :| 0 <= i < |lines| && ParseLine(lines[i]) == Some(e);
      MemberComplete(lines, e, i);
    }
  }

  /** The output splits at any line into the edges before it, its own edge, and the edges after it. */
  lemma SplitAtLine(lines: seq<string>, j: nat)
    requires j < |lines|
    ensures ParseEdges(lines) == ParseEdges(lines[..j]) + EdgesOf(ParseLine(lines[j])) + ParseEdges(lines[j + 1..])
  {
    var before, after := lines[..j], lines[j + 1..];
    assert lines == (before + [lines[j]]) + after;
    ParseEdgesAppend(before + [lines[j]], after);
    ParseEdgesSnoc(before, lines[j]);
  }

  /** The edges of two lines keep the order of the lines. */
  lemma KeepsLineOrder(lines: seq<string>, i: nat, j: nat, e1: Edge, e2: Edge)
    requires i < j < |lines|
    requires ParseLine(lines[i]) == Some(e1) && ParseLine(lines[j]) == Some(e2)
    ensures exists p, q :: 0 <= p < q < |ParseEdges(lines)| && ParseEdges(lines)[p] == e1 && ParseEdges(lines)[q] == e2
  {
    var before := lines[..j];
    SplitAtLine(lines, j);
    assert before[i] == lines[i];
    MemberComplete(before, e1, i);
    var pre := ParseEdges(before);
    var p :| 0 <= p < |pre| && pre[p] == e1;
    var es := ParseEdges(lines);
    assert es == pre + [e2] + ParseEdges(lines[j + 1..]);
    assert es[p] == e1 && es[|pre|] == e2;
  }
}
