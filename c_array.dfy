/**
 * `hex_to_c_array`: the text of a C header holding a byte blob as an
 * `unsigned char` array.  HexToCArray models the function as written,
 * whose closing text and `return` sit inside the loop; HexToCArrayFixed
 * is the evidently intended version that emits every byte.
 */
module CArray {
  import opened Wrappers
  import opened Bytes
  import opened Text

  /**
   * The literal that opens the length line.  It is kept as an opaque
   * constant: a backslash followed by "unsigned int ", the Python 2 reading.
   */
  const LENGTH_PREFIX: string := "\\unsigned int "

  /** Bytes per output line before a line break is inserted. */
  const PER_LINE: nat := 12

  // ---------------------------------------------------------------------
  // One token: format(val, '#04x') plus its separators
  // ---------------------------------------------------------------------

  predicate IsLowerHexDigit(c: char) {
    '0' <= c <= '9' || 'a' <= c <= 'f'
  }

  /** The lower-case hexadecimal digit for d. */
  function HexDigit(d: nat): (c: char)
    requires d < 16
    ensures IsLowerHexDigit(c) && HexValue(c) == d
  {
    if d < 10 then ('0' as int + d) as char else ('a' as int + d - 10) as char
  }

  predicate IsHexDigit(c: char) {
    '0' <= c <= '9' || 'a' <= c <= 'f' || 'A' <= c <= 'F'
  }

  /** The value of a hexadecimal digit of either case (0 for anything else). */
  function HexValue(c: char): (v: nat)
    ensures v < 16
  {
    if '0' <= c <= '9' then c as int - '0' as int
    else if 'a' <= c <= 'f' then c as int - 'a' as int + 10
    else if 'A' <= c <= 'F' then c as int - 'A' as int + 10
    else 0
  }

  /**
   * `format(v, '#04x')`: "0x" and exactly two lower-case hexadecimal digits
   * (the width 4 counts the prefix, so values below 16 get a leading 0).
   */
  function Hex2(v: Byte): (s: string)
    ensures |s| == 4 && s[0] == '0' && s[1] == 'x'
    ensures IsLowerHexDigit(s[2]) && IsLowerHexDigit(s[3])
    ensures HexValue(s[2]) * 16 + HexValue(s[3]) == v
  {
    "0x" + [HexDigit(v / 16), HexDigit(v % 16)]
  }

  /** Two byte values with the same rendering are the same value. */
  lemma Hex2Injective(u: Byte, v: Byte)
    requires Hex2(u) == Hex2(v)
    ensures u == v
  {
    assert Hex2(u)[2] == Hex2(v)[2] && Hex2(u)[3] == Hex2(v)[3];
  }

  /** What follows token i of n: a comma unless it is the last, a break after every 12th. */
  function Separator(i: nat, n: nat): string {
    (if i + 1 < n then "," else "") + (if (i + 1) % PER_LINE == 0 then "\n " else "")
  }

  /** The string the loop appends to `hex_array` for byte i. */
  function Token(data: seq<Byte>, i: nat): string
    requires i < |data|
  {
    Hex2(data[i]) + Separator(i, |data|)
  }

  /** The `format(val, '#04x')` step and the two conditional `hex_str +=` appends of the loop body. */
  method FormatToken(data: seq<Byte>, i: nat) returns (hexStr: string)
    requires i < |data|
    ensures hexStr == Token(data, i)
  {
    hexStr := Hex2(data[i]);
    if i + 1 < |data| {
      hexStr := hexStr + ",";
    }
    assert hexStr == Hex2(data[i]) + (if i + 1 < |data| then "," else "");
    if (i + 1) % PER_LINE == 0 {
      hexStr := hexStr + "\n ";
    }
  }

  predicate StartsWith(s: string, prefix: string) {
    |prefix| <= |s| && s[..|prefix|] == prefix
  }

  predicate EndsWith(s: string, suffix: string) {
    |suffix| <= |s| && s[|s| - |suffix|..] == suffix
  }

  lemma StartsWithConcat(a: string, b: string, prefix: string)
    requires StartsWith(a, prefix)
    ensures StartsWith(a + b, prefix)
  {
    assert (a + b)[..|prefix|] == a[..|prefix|];
  }

  lemma EndsWithConcat(a: string, b: string, suffix: string)
    requires EndsWith(b, suffix)
    ensures EndsWith(a + b, suffix)
  {
    assert (a + b)[|a + b| - |suffix|..] == b[|b| - |suffix|..];
  }

  /**
   * Token i is the rendering of byte i, then a comma exactly when another
   * byte follows, then "\n " exactly when i+1 is a multiple of 12.
   */
  lemma TokenLayout(data: seq<Byte>, i: nat)
    requires i < |data|
    ensures var t := Token(data, i);
      && |t| >= 4 && t[..4] == Hex2(data[i])
      && ((|t| > 4 && t[4] == ',') <==> i + 1 < |data|)
      && (EndsWith(t, "\n ") <==> (i + 1) % PER_LINE == 0)
  {
    var t := Token(data, i);
    assert t[..4] == Hex2(data[i]);
    if (i + 1) % PER_LINE != 0 {
      assert t[|t| - 1] != ' ';
    }
  }

  /** The tokens for bytes i, i+1, ... of data. */
  function TokensFrom(data: seq<Byte>, i: nat): (r: seq<string>)
    requires i <= |data|
    ensures |r| == |data| - i
    ensures forall k :: 0 <= k < |r| ==> r[k] == Token(data, i + k)
    decreases |data| - i
  {
    if i == |data| then [] else [Token(data, i)] + TokensFrom(data, i + 1)
  }

  /** What the loop leaves in `hex_array` after a full pass: one token per byte. */
  function Tokens(data: seq<Byte>): (r: seq<string>)
    ensures |r| == |data|
    ensures forall i :: 0 <= i < |data| ==> r[i] == Token(data, i)
  {
    TokensFrom(data, 0)
  }

  // ---------------------------------------------------------------------
  // The surrounding text
  // ---------------------------------------------------------------------

  /** The first `c_str +=`: the opening of the header guard, "#indef" kept verbatim. */
  function IfndefLine(name: string): string {
    "#indef" + Upper(name) + "_H\n"
  }

  /** The second `c_str +=`: the guard's definition, with no space after "#define". */
  function DefineLine(name: string): string {
    "#define" + Upper(name) + "_H\n"
  }

  /** The third `c_str +=`: the length constant, `str(len(hex_data))` in decimal. */
  function LengthLine(name: string, n: nat): string {
    LENGTH_PREFIX + name + "_len = " + NatToDecimal(n) + ";\n"
  }

  /** The fourth `c_str +=`: the array declaration up to its opening brace. */
  function ArrayOpen(name: string): string {
    "unsigned char " + name + "[] = {"
  }

  /** Everything the function appends before the loop, in order. */
  function Prologue(name: string, n: nat): string {
    IfndefLine(name) + DefineLine(name) + LengthLine(name, n) + ArrayOpen(name)
  }

  /**
   * The four `c_str +=` statements before the loop, run on the empty
   * `c_str`: guard opening, guard definition, length line, array opening.
   */
  method WritePrologue(name: string, n: nat) returns (cStr: string)
    ensures cStr == Prologue(name, n)
  {
    cStr := "";
    cStr := cStr + ("#indef" + Upper(name) + "_H\n");
    cStr := cStr + ("#define" + Upper(name) + "_H\n");
    cStr := cStr + (LENGTH_PREFIX + name + "_len = " + NatToDecimal(n) + ";\n");
    cStr := cStr + ("unsigned char " + name + "[] = {");
  }

  /** The "closing brace" `c_str +=` in the loop: the joined tokens, framed by a line break and the closing brace. */
  function ArrayText(tokens: seq<string>): string {
    "\n " + Join(" ", tokens) + "\n};\n\n"
  }

  /** The "header guard" `c_str +=`: the `#endif` comment line. */
  function GuardClose(name: string): string {
    "#endif //" + Upper(name) + "_H"
  }

  /** The length line holds the byte count in decimal, and reading those digits gives the count back. */
  lemma LengthLineReadsBack(name: string, n: nat)
    ensures var line, p := LengthLine(name, n), LENGTH_PREFIX + name + "_len = ";
      && |p| + 2 <= |line| && line[..|p|] == p && line[|line| - 2..] == ";\n"
      && (forall k :: |p| <= k < |line| - 2 ==> IsDigit(line[k]))
      && DecimalValue(line[|p|..|line| - 2]) == n
  {
    var line, p, d := LengthLine(name, n), LENGTH_PREFIX + name + "_len = ", NatToDecimal(n);
    assert line == p + d + ";\n";
    assert line[|p|..|line| - 2] == d;
    DecimalRoundTrip(n);
  }

  // ---------------------------------------------------------------------
  // As written: closing text and return inside the loop
  // ---------------------------------------------------------------------

  /**
   * The value `hex_to_c_array` returns: None for empty data (the loop body
   * never runs); otherwise the text closed after the first token.
   */
  function AsWrittenText(data: seq<Byte>, name: string): Option<string> {
    if |data| == 0 then None
    else Some(Prologue(name, |data|) + ArrayText([Token(data, 0)]) + GuardClose(name))
  }

  /** `hex_to_c_array(hex_data, var_name)` as the source has it. */
  method HexToCArray(data: seq<Byte>, name: string) returns (r: Option<string>)
    ensures r == AsWrittenText(data, name)
    ensures r.None? <==> |data| == 0
  {
    var cStr := WritePrologue(name, |data|);
    var hexArray: seq<string> := [];
    for i := 0 to |data|
      invariant i == 0 && hexArray == []
      invariant cStr == Prologue(name, |data|)
    {
      var hexStr := FormatToken(data, i);
      hexArray := hexArray + [hexStr];
      cStr := cStr + ("\n " + Join(" ", hexArray) + "\n};\n\n");
      cStr := cStr + ("#endif //" + Upper(name) + "_H");
      assert hexArray == [Token(data, 0)];
      return Some(cStr);
    }
    return None;
  }

  /** For non-empty data the text depends only on the first byte, the length and the name. */
  lemma AsWrittenFirstByteOnly(d1: seq<Byte>, d2: seq<Byte>, name: string)
    requires |d1| == |d2| > 0 && d1[0] == d2[0]
    ensures AsWrittenText(d1, name) == AsWrittenText(d2, name)
  {
    assert Token(d1, 0) == Token(d2, 0);
  }

  /** As written, non-empty data gives text that opens with the prologue and ends with the guard close. */
  lemma AsWrittenFraming(data: seq<Byte>, name: string)
    requires |data| > 0
    ensures StartsWith(AsWrittenText(data, name).value, Prologue(name, |data|))
    ensures EndsWith(AsWrittenText(data, name).value, "\n};\n\n" + GuardClose(name))
  {
    var p := Prologue(name, |data|);
    var mid := "\n " + Token(data, 0);
    var tail := "\n};\n\n" + GuardClose(name);
    assert Join(" ", [Token(data, 0)]) == Token(data, 0);
    assert AsWrittenText(data, name).value == p + mid + tail;
    assert StartsWith(p, p);
    Framed(p, mid, tail, p);
  }

  /** The two guard lines, as they open every text the function builds. */
  function GuardOpen(name: string): string {
    "#indef" + Upper(name) + "_H\n#define" + Upper(name) + "_H\n"
  }

  lemma PrologueStartsWithGuard(name: string, n: nat)
    ensures StartsWith(Prologue(name, n), GuardOpen(name))
  {
    assert IfndefLine(name) + DefineLine(name) == GuardOpen(name);
    StartsWithConcat(IfndefLine(name) + DefineLine(name), LengthLine(name, n) + ArrayOpen(name), GuardOpen(name));
    assert Prologue(name, n) == IfndefLine(name) + DefineLine(name) + (LengthLine(name, n) + ArrayOpen(name));
  }

  lemma Framed(p: string, body: string, e: string, g: string)
    requires StartsWith(p, g)
    ensures StartsWith(p + body + e, g) && EndsWith(p + body + e, e)
  {
    assert (p + body + e)[..|g|] == p[..|g|];
    assert (p + body + e)[|p + body + e| - |e|..] == e;
  }

  /**
   * Every text either version returns opens with the two guard lines built
   * from `var_name.upper() + '_H'` and ends with `'#endif //' + NAME + '_H'`.
   */
  lemma HeaderGuardFraming(data: seq<Byte>, name: string)
    ensures StartsWith(FixedText(data, name), GuardOpen(name))
    ensures EndsWith(FixedText(data, name), "#endif //" + Upper(name) + "_H")
    ensures |data| > 0 ==> StartsWith(AsWrittenText(data, name).value, GuardOpen(name))
    ensures |data| > 0 ==> EndsWith(AsWrittenText(data, name).value, "#endif //" + Upper(name) + "_H")
  {
    PrologueStartsWithGuard(name, |data|);
    Framed(Prologue(name, |data|), ArrayText(Tokens(data)), GuardClose(name), GuardOpen(name));
    if |data| > 0 {
      Framed(Prologue(name, |data|), ArrayText([Token(data, 0)]), GuardClose(name), GuardOpen(name));
    }
  }

  /** The text up to its first line break is exactly `line`. */
  predicate FirstLineIs(t: string, line: string) {
    && |line| < |t| && t[..|line|] == line && t[|line|] == '\n'
    && forall k :: 0 <= k < |line| ==> t[k] != '\n'
  }

  /** The `#indef` line of the guard, without its line break. */
  function GuardLine(name: string): string {
    "#indef" + Upper(name) + "_H"
  }

  lemma FirstLineOf(t: string, first: string, rest: string)
    requires StartsWith(t, first + "\n" + rest)
    requires forall k :: 0 <= k < |first| ==> first[k] != '\n'
    ensures FirstLineIs(t, first)
  {
    var g := first + "\n" + rest;
    assert t[..|first|] == g[..|first|];
    assert t[|first|] == g[|first|];
    forall k | 0 <= k < |first|
      ensures t[k] != '\n'
    {
      assert t[k] == t[..|first|][k];
    }
  }

  /** For a name without a line break, the guard line has none either: Upper introduces none. */
  lemma GuardLineHasNoBreak(name: string)
    requires forall k :: 0 <= k < |name| ==> name[k] != '\n'
    ensures forall k :: 0 <= k < |GuardLine(name)| ==> GuardLine(name)[k] != '\n'
  {
    var first := GuardLine(name);
    forall k | 0 <= k < |first|
      ensures first[k] != '\n'
    {
      if 6 <= k < 6 + |name| {
        assert first[k] == Upper(name)[k - 6];
      }
    }
  }

  /** A text that opens with the guard lines of a name without a line break has the guard line as its first line. */
  lemma GuardOpenFirstLine(t: string, name: string)
    requires forall k :: 0 <= k < |name| ==> name[k] != '\n'
    requires StartsWith(t, GuardOpen(name))
    ensures FirstLineIs(t, GuardLine(name))
  {
    var rest := "#define" + Upper(name) + "_H\n";
    assert GuardOpen(name) == GuardLine(name) + "\n" + rest;
    GuardLineHasNoBreak(name);
    FirstLineOf(t, GuardLine(name), rest);
  }

  /** For a name without a line break, the first line of either version's text is exactly "#indef" + NAME + "_H". */
  lemma FirstLineIsGuard(data: seq<Byte>, name: string)
    requires forall k :: 0 <= k < |name| ==> name[k] != '\n'
    ensures FirstLineIs(FixedText(data, name), GuardLine(name))
    ensures |data| > 0 ==> FirstLineIs(AsWrittenText(data, name).value, GuardLine(name))
  {
    HeaderGuardFraming(data, name);
    GuardOpenFirstLine(FixedText(data, name), name);
    if |data| > 0 {
      GuardOpenFirstLine(AsWrittenText(data, name).value, name);
    }
  }

  // ---------------------------------------------------------------------
  // Reading the array literal back
  // ---------------------------------------------------------------------

  /**
   * The bytes a C reader finds in an array literal: every "0x" followed by
   * two hexadecimal digits, in order; every other character is skipped.
   */
  function ParseArrayBody(s: string): seq<Byte>
    decreases |s|
  {
    if |s| >= 4 && s[0] == '0' && s[1] == 'x' && IsHexDigit(s[2]) && IsHexDigit(s[3]) then
      [HexValue(s[2]) * 16 + HexValue(s[3])] + ParseArrayBody(s[4..])
    else if s == [] then []
    else ParseArrayBody(s[1..])
  }

  /** Text without a '0' holds no literal and is skipped. */
  lemma {:induction false} ParseSkips(sep: string, rest: string)
    requires forall k :: 0 <= k < |sep| ==> sep[k] != '0'
    ensures ParseArrayBody(sep + rest) == ParseArrayBody(rest)
    decreases |sep|
  {
    if sep != [] {
      var s := sep + rest;
      assert s[0] == sep[0] && s[1..] == sep[1..] + rest;
      assert ParseArrayBody(s) == ParseArrayBody(s[1..]);
      ParseSkips(sep[1..], rest);
    } else {
      assert sep + rest == rest;
    }
  }

  /** A rendered byte is read back as that byte. */
  lemma ParseHex2(v: Byte, rest: string)
    ensures ParseArrayBody(Hex2(v) + rest) == [v] + ParseArrayBody(rest)
  {
    var s := Hex2(v) + rest;
    assert s[4..] == rest;
  }

  /** A token, and what separates it from the next, read back as its byte. */
  lemma ParseToken(data: seq<Byte>, i: nat, rest: string)
    requires i < |data|
    ensures ParseArrayBody(Token(data, i) + rest) == [data[i]] + ParseArrayBody(rest)
  {
    var sep := Separator(i, |data|);
    assert Token(data, i) + rest == Hex2(data[i]) + (sep + rest);
    ParseHex2(data[i], sep + rest);
    ParseSkips(sep, rest);
  }

  lemma ParseTokenThenSpace(data: seq<Byte>, i: nat, tail: string)
    requires i < |data|
    ensures ParseArrayBody(Token(data, i) + (" " + tail)) == [data[i]] + ParseArrayBody(tail)
  {
    ParseToken(data, i, " " + tail);
    ParseSkips(" ", tail);
  }

  lemma JoinCons(x: string, xs: seq<string>, tail: string)
    requires xs != []
    ensures Join(" ", [x] + xs) + tail == x + (" " + (Join(" ", xs) + tail))
  {
    assert ([x] + xs)[1..] == xs;
    var j := Join(" ", xs);
    assert Join(" ", [x] + xs) == x + " " + j;
    assert x + " " + j + tail == x + (" " + (j + tail));
  }

  /** The joined tokens for bytes i.., and whatever follows them, read back as exactly those bytes first. */
  lemma {:induction false} ParseJoinedTokens(data: seq<Byte>, i: nat, tail: string)
    requires i <= |data|
    ensures ParseArrayBody(Join(" ", TokensFrom(data, i)) + tail) == data[i..] + ParseArrayBody(tail)
    decreases |data| - i
  {
    var ts := TokensFrom(data, i);
    if i == |data| {
      assert ts == [];
      assert Join(" ", ts) + tail == tail;
      assert data[i..] == [];
    } else {
      var t := Token(data, i);
      var rest := TokensFrom(data, i + 1);
      assert ts == [t] + rest;
      if rest == [] {
        assert Join(" ", ts) == t;
        ParseToken(data, i, tail);
        assert data[i..] == [data[i]];
      } else {
        JoinCons(t, rest, tail);
        ParseTokenThenSpace(data, i, Join(" ", rest) + tail);
        ParseJoinedTokens(data, i + 1, tail);
        assert data[i..] == [data[i]] + data[i + 1..];
      }
    }
  }

  /** The text after the last token holds no literal. */
  lemma ParseClosing()
    ensures ParseArrayBody("\n};\n\n") == []
  {
    ParseSkips("\n};\n\n", "");
    assert "\n};\n\n" + "" == "\n};\n\n";
  }

  /** As written, the emitted array literal of non-empty data yields only its first byte. */
  lemma AsWrittenReadsFirstByteOnly(data: seq<Byte>)
    requires |data| > 0
    ensures ParseArrayBody(ArrayText([Token(data, 0)])) == [data[0]]
    ensures |data| > 1 ==> ParseArrayBody(ArrayText([Token(data, 0)])) != data
  {
    assert ArrayText([Token(data, 0)]) == "\n " + (Token(data, 0) + "\n};\n\n");
    ParseSkips("\n ", Token(data, 0) + "\n};\n\n");
    ParseToken(data, 0, "\n};\n\n");
    ParseClosing();
  }

  // ---------------------------------------------------------------------
  // As intended: every token first, then the closing text once
  // ---------------------------------------------------------------------

  function FixedText(data: seq<Byte>, name: string): string {
    Prologue(name, |data|) + ArrayText(Tokens(data)) + GuardClose(name)
  }

  /** The array literal the intended text emits reads back as exactly the input bytes. */
  lemma FixedReadsBack(data: seq<Byte>)
    ensures ParseArrayBody(ArrayText(Tokens(data))) == data
  {
    var body := Join(" ", Tokens(data));
    assert ArrayText(Tokens(data)) == "\n " + (body + "\n};\n\n");
    ParseSkips("\n ", body + "\n};\n\n");
    ParseJoinedTokens(data, 0, "\n};\n\n");
    ParseClosing();
  }

  /** The two versions agree exactly on one-byte data, where the early return does no harm. */
  lemma FixedAgreesOnOneByte(data: seq<Byte>, name: string)
    requires |data| == 1
    ensures AsWrittenText(data, name) == Some(FixedText(data, name))
  {
    assert Tokens(data) == [Token(data, 0)];
  }

  /** The `for i, val in enumerate(hex_data)` loop run to completion: `hex_array` gets one token per byte, in order. */
  method CollectTokens(data: seq<Byte>) returns (hexArray: seq<string>)
    ensures hexArray == Tokens(data)
  {
    hexArray := [];
    for i := 0 to |data|
      invariant hexArray == Tokens(data)[..i]
    {
      var hexStr := FormatToken(data, i);
      assert Tokens(data)[..i + 1] == Tokens(data)[..i] + [hexStr];
      hexArray := hexArray + [hexStr];
    }
    assert hexArray == Tokens(data);
  }

  /** `hex_to_c_array` with the closing text and `return` after the loop: total, one token per byte. */
  method HexToCArrayFixed(data: seq<Byte>, name: string) returns (r: string)
    ensures r == FixedText(data, name)
  {
    var cStr := WritePrologue(name, |data|);
    var hexArray := CollectTokens(data);
    cStr := cStr + ("\n " + Join(" ", hexArray) + "\n};\n\n");
    cStr := cStr + ("#endif //" + Upper(name) + "_H");
    r := cStr;
  }
}
