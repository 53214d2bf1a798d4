/** Text of the passwd file: tokens, lines, decimal and hexadecimal numbers, and how the parser
    reads back what the printer wrote. */
module PasswdText {

  const U32: nat := 0x1_0000_0000
  const WORD: nat := 0x1_0000_0000_0000_0000

  predicate IsSpace(c: char) { c == ' ' || c == '\t' || c == '\n' || c == '\r' }
  predicate IsBlank(c: char) { IsSpace(c) && c != '\n' }

  // ---- Tokens and lines; a string stands for the text from the parser's pointer on ---------------------

  /** skip_ws. */
  function SkipWs(s: string): string {
    if s != "" && IsBlank(s[0]) then SkipWs(s[1..]) else s
  }

  /** The token at the front of s, of at most n characters, and what follows it. */
  function TakeTok(s: string, n: nat): string {
    if s == "" || IsSpace(s[0]) || n == 0 then "" else [s[0]] + TakeTok(s[1..], n - 1)
  }

  function DropTok(s: string, n: nat): string {
    if s == "" || IsSpace(s[0]) || n == 0 then s else DropTok(s[1..], n - 1)
  }

  /** next_line. */
  function NextLine(s: string): string {
    if s == "" then "" else if s[0] == '\n' then s[1..] else NextLine(s[1..])
  }

  /** read_tok with buffers of these sizes, one after the other. */
  function ReadToks(s: string, sizes: seq<nat>): seq<string>
    decreases sizes
  {
    if sizes == [] then []
    else
      var n := if sizes[0] > 0 then sizes[0] - 1 else 0;
      [TakeTok(SkipWs(s), n)] + ReadToks(DropTok(SkipWs(s), n), sizes[1..])
  }

  function AfterToks(s: string, sizes: seq<nat>): string
    decreases sizes
  {
    if sizes == [] then s
    else
      var n := if sizes[0] > 0 then sizes[0] - 1 else 0;
      AfterToks(DropTok(SkipWs(s), n), sizes[1..])
  }

  predicate NoSpace(t: string) { forall i :: 0 <= i < |t| ==> !IsSpace(t[i]) }

  /** A token that survives printing and reading with a buffer of this size. */
  predicate Word(t: string, size: nat) { t != "" && NoSpace(t) && |t| < size }

  /** Tokens separated by single spaces. */
  function Spaced(toks: seq<string>): string {
    if toks == [] then "" else if |toks| == 1 then toks[0] else toks[0] + " " + Spaced(toks[1..])
  }

  predicate Ends(s: string) { s == "" || IsSpace(s[0]) }

  lemma {:induction false} TokRead(t: string, rest: string, n: nat)
    requires NoSpace(t) && |t| <= n && Ends(rest)
    ensures TakeTok(t + rest, n) == t && DropTok(t + rest, n) == rest
    decreases t
  {
    if t == "" {
      assert t + rest == rest;
    } else {
      assert (t + rest)[1..] == t[1..] + rest;
      TokRead(t[1..], rest, n - 1);
    }
  }

  lemma SkipNone(s: string)
    requires s == "" || !IsBlank(s[0])
    ensures SkipWs(s) == s
  {
  }

  lemma SkipOne(s: string)
    requires s != "" && !IsBlank(s[0])
    ensures SkipWs(" " + s) == s
  {
    assert (" " + s)[1..] == s;
  }

  lemma LeadSkipped(lead: string, s: string)
    requires (lead == "" || lead == " ") && s != "" && !IsBlank(s[0])
    ensures SkipWs(lead + s) == s
  {
    if lead == "" {
      assert lead + s == s;
      SkipNone(s);
    } else {
      SkipOne(s);
    }
  }

  predicate Words(toks: seq<string>, sizes: seq<nat>) {
    |toks| == |sizes| && forall i :: 0 <= i < |toks| ==> Word(toks[i], sizes[i])
  }

  lemma FirstTok(toks: seq<string>, rest: string, lead: string)
    requires |toks| > 0
    ensures var tail := if |toks| == 1 then rest else " " + Spaced(toks[1..]) + rest;
      lead + Spaced(toks) + rest == lead + (toks[0] + tail)
  {
    if |toks| > 1 {
      Regrouped(lead, toks[0], Spaced(toks[1..]), rest);
    } else {
      assert lead + toks[0] + rest == lead + (toks[0] + rest);
    }
  }

  lemma Regrouped(a: string, b: string, c: string, d: string)
    ensures a + (b + " " + c) + d == a + (b + (" " + c + d))
  {
    var e := " " + c;
    assert b + " " + c == b + e;
    assert a + (b + e) + d == a + (b + (e + d));
  }

  lemma FirstRead(s: string, lead: string, t: string, tail: string, n: nat)
    requires s == lead + (t + tail) && (lead == "" || lead == " ") && Word(t, n + 1) && Ends(tail)
    ensures TakeTok(SkipWs(s), n) == t && DropTok(SkipWs(s), n) == tail
  {
    LeadSkipped(lead, t + tail);
    TokRead(t, tail, n);
  }

  /** Reading a printed line gives the tokens back and stops at its end. */
  lemma {:induction false} LineRead(toks: seq<string>, sizes: seq<nat>, rest: string, lead: string)
    requires Words(toks, sizes) && |toks| > 0 && (lead == "" || lead == " ") && Ends(rest)
    ensures ReadToks(lead + Spaced(toks) + rest, sizes) == toks && AfterToks(lead + Spaced(toks) + rest, sizes) == rest
    decreases toks
  {
    var t, n := toks[0], sizes[0] - 1;
    var tail := if |toks| == 1 then rest else " " + Spaced(toks[1..]) + rest;
    assert Word(t, sizes[0]);
    FirstTok(toks, rest, lead);
    FirstRead(lead + Spaced(toks) + rest, lead, t, tail, n);
    if |toks| == 1 {
      assert sizes[1..] == [] && toks == [t];
    } else {
      LineRead(toks[1..], sizes[1..], rest, " ");
      assert toks == [t] + toks[1..];
    }
  }

  lemma {:induction false} NextLineSkips(line: string, rest: string)
    requires '\n' !in line
    ensures NextLine(line + "\n" + rest) == rest
    decreases line
  {
    if line == "" {
      assert (line + "\n" + rest)[1..] == rest;
    } else {
      assert (line + "\n" + rest)[1..] == line[1..] + "\n" + rest;
      NextLineSkips(line[1..], rest);
    }
  }

  // ---- Decimal numbers ------------------------------------------------------------------------------------

  predicate IsDigit(c: char) { '0' <= c <= '9' }

  function Digit(d: nat): (c: char)
    requires d < 10
    ensures IsDigit(c) && !IsSpace(c) && c as int == '0' as int + d
  {
    ('0' as int + d) as char
  }

  function Dec(v: nat): (s: string)
    ensures s != "" && NoSpace(s)
  {
    if v < 10 then [Digit(v)] else Dec(v / 10) + [Digit(v % 10)]
  }

  /** u_atou from an accumulated value, in 32 bits. */
  function Atou(s: string, acc: nat): nat
    decreases s
  {
    if s != "" && IsDigit(s[0]) then Atou(s[1..], (acc * 10 + (s[0] as int - '0' as int)) % U32) else acc
  }

  predicate Digits(s: string) { forall i :: 0 <= i < |s| ==> IsDigit(s[i]) }

  lemma {:induction false} AtouSnoc(s: string, c: char, acc: nat)
    requires Digits(s) && IsDigit(c)
    ensures Atou(s + [c], acc) == (Atou(s, acc) * 10 + (c as int - '0' as int)) % U32
    decreases s
  {
    if s == "" {
      assert s + [c] == [c] && [c][1..] == "";
    } else {
      assert (s + [c])[1..] == s[1..] + [c];
      AtouSnoc(s[1..], c, (acc * 10 + (s[0] as int - '0' as int)) % U32);
    }
  }

  lemma AtouNext(s: string, q: nat, d: nat, v: nat)
    requires Digits(s) && Atou(s, 0) == q && d < 10 && v == q * 10 + d < U32
    ensures Digits(s + [Digit(d)]) && Atou(s + [Digit(d)], 0) == v
  {
    AtouSnoc(s, Digit(d), 0);
  }

  lemma {:induction false} AtouDec(v: nat)
    requires v < U32
    ensures Digits(Dec(v)) && Atou(Dec(v), 0) == v
    decreases v
  {
    if v < 10 {
      assert Dec(v)[1..] == "";
    } else {
      AtouDec(v / 10);
      AtouNext(Dec(v / 10), v / 10, v % 10, v);
    }
  }

  lemma {:induction false} DecShort(v: nat, n: nat)
    requires v < Pow10(n) && n > 0
    ensures |Dec(v)| <= n
    decreases n
  {
    if v >= 10 {
      DecShort(v / 10, n - 1);
    }
  }

  function Pow10(n: nat): nat { if n == 0 then 1 else 10 * Pow10(n - 1) }

  // ---- Hexadecimal numbers --------------------------------------------------------------------------------

  function HexDigit(d: nat): (c: char)
    requires d < 16
    ensures !IsSpace(c)
  {
    if d < 10 then ('0' as int + d) as char else ('a' as int + (d - 10)) as char
  }

  /** fmt_hex64: n digits, most significant first. */
  function Hex(v: nat, n: nat): (s: string)
    ensures |s| == n && NoSpace(s)
    decreases n, v
  {
    if n == 0 then "" else Hex(v / 16, n - 1) + [HexDigit(v % 16)]
  }

  predicate IsHex(c: char) { '0' <= c <= '9' || 'a' <= c <= 'f' || 'A' <= c <= 'F' }

  function Nibble(c: char): (d: nat)
    requires IsHex(c)
    ensures d < 16
  {
    if '0' <= c <= '9' then c as int - '0' as int
    else if 'a' <= c <= 'f' then c as int - 'a' as int + 10
    else c as int - 'A' as int + 10
  }

  /** is_hex64. */
  predicate IsHex64(s: string) { |s| >= 16 && forall i :: 0 <= i < 16 ==> IsHex(s[i]) }

  /** parse_hex64 over at most n characters, in 64 bits. */
  function ParseHex(s: string, n: nat, acc: nat): nat
    decreases n, acc
  {
    if n == 0 || s == "" || !IsHex(s[0]) then acc else ParseHex(s[1..], n - 1, (acc * 16 + Nibble(s[0])) % WORD)
  }

  predicate AllHex(s: string) { forall i :: 0 <= i < |s| ==> IsHex(s[i]) }

  lemma {:induction false} ParseSnoc(s: string, c: char, acc: nat)
    requires AllHex(s) && IsHex(c)
    ensures ParseHex(s + [c], |s| + 1, acc) == (ParseHex(s, |s|, acc) * 16 + Nibble(c)) % WORD
    decreases s
  {
    if s == "" {
      assert s + [c] == [c] && [c][1..] == "";
    } else {
      assert (s + [c])[1..] == s[1..] + [c];
      ParseSnoc(s[1..], c, (acc * 16 + Nibble(s[0])) % WORD);
    }
  }

  function Pow16(n: nat): nat { if n == 0 then 1 else 16 * Pow16(n - 1) }

  lemma NibbleOfDigit(d: nat)
    requires d < 16
    ensures IsHex(HexDigit(d)) && Nibble(HexDigit(d)) == d
  {
  }

  lemma HexNext(s: string, q: nat, d: nat, v: nat)
    requires AllHex(s) && ParseHex(s, |s|, 0) == q && d < 16 && v == q * 16 + d < WORD
    ensures AllHex(s + [HexDigit(d)]) && ParseHex(s + [HexDigit(d)], |s| + 1, 0) == v
  {
    NibbleOfDigit(d);
    AllHexSnoc(s, HexDigit(d));
    ParseSnoc(s, HexDigit(d), 0);
  }

  lemma AllHexSnoc(s: string, c: char)
    requires AllHex(s) && IsHex(c)
    ensures AllHex(s + [c])
  {
  }

  lemma {:induction false} HexRead(v: nat, n: nat)
    requires v < Pow16(n) <= WORD
    ensures AllHex(Hex(v, n)) && ParseHex(Hex(v, n), n, 0) == v
    decreases n
  {
    if n > 0 {
      HexRead(v / 16, n - 1);
      HexNext(Hex(v / 16, n - 1), v / 16, v % 16, v);
    }
  }

  lemma Hex64Read(v: nat)
    requires v < WORD
    ensures IsHex64(Hex(v, 16)) && ParseHex(Hex(v, 16), 16, 0) == v
  {
    assert Pow16(4) == 0x1_0000;
    assert Pow16(8) == 0x1_0000_0000;
    assert Pow16(12) == 0x1_0000_0000_0000;
    assert Pow16(16) == WORD;
    HexRead(v, 16);
  }
}
