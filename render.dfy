/**
 * The text of the generated header file: a comment naming the orientation,
 * the size and the format, then a `const uint8_t` array whose body lists
 * the buffer one byte per line in lowercase hexadecimal.
 */
module Render {
  import opened Options
  import opened Dimensions

  /** Digit characters, lowercase, indexed by their value. */
  const DigitChars: string := "0123456789abcdef"

  /** The character for digit value `d`. */
  function DigitChar(d: nat): (c: char)
    requires d < 16
    ensures ValueOf(c) == d
  {
    DigitChars[d]
  }

  /** The value of a digit character, and 16 for any other character. */
  function ValueOf(c: char): nat
  {
    if '0' <= c <= '9' then c as int - '0' as int
    else if 'a' <= c <= 'f' then c as int - 'a' as int + 10
    else 16
  }

  /** Every character of `s` is a digit of `base`. */
  predicate AllDigits(s: string, base: nat)
  {
    forall i :: 0 <= i < |s| ==> ValueOf(s[i]) < base
  }

  /**
   * `n` written in `base` with no leading zeros, as Rust's `{}` (base 10)
   * and `{:x}` (base 16) print an unsigned integer: zero is the single digit `0`.
   */
  function ToBase(n: nat, base: nat): (s: string)
    requires 2 <= base <= 16
    ensures 1 <= |s| && AllDigits(s, base)
    ensures s[0] == '0' <==> n == 0
    ensures n < base <==> |s| == 1
    decreases n
  {
    DivMod(n, base);
    if n < base then [DigitChar(n)]
    else ToBase(n / base, base) + [DigitChar(n % base)]
  }

  /** Euclidean division by a base: quotient and remainder rebuild the number. */
  lemma DivMod(n: nat, base: nat)
    requires 2 <= base
    ensures (n / base) * base + n % base == n
    ensures n % base < base
    ensures n >= base ==> 0 < n / base < n
  {
  }

  /** The number the digits of `s` denote in `base`, most significant first. */
  function FromBase(s: string, base: nat): nat
  {
    if s == [] then 0 else FromBase(s[..|s| - 1], base) * base + ValueOf(s[|s| - 1])
  }

  /** Reading the digits back gives the number written. */
  lemma {:induction false} FromToBase(n: nat, base: nat)
    requires 2 <= base <= 16
    ensures FromBase(ToBase(n, base), base) == n
    decreases n
  {
    var s := ToBase(n, base);
    if n < base {
      assert s[..0] == [];
    } else {
      var q, r := n / base, n % base;
      DivMod(n, base);
      FromToBase(q, base);
      assert s[..|s| - 1] == ToBase(q, base);
      assert ValueOf(s[|s| - 1]) == r;
    }
  }

  /** Distinct numbers are written differently. */
  lemma ToBaseInjective(n: nat, m: nat, base: nat)
    requires 2 <= base <= 16
    requires ToBase(n, base) == ToBase(m, base)
    ensures n == m
  {
    FromToBase(n, base);
    FromToBase(m, base);
  }

  /** A number as `{}` prints it. */
  function Decimal(n: nat): string
  {
    ToBase(n, 10)
  }

  /** A byte as `{:x}` prints it: lowercase hexadecimal, one or two digits, no zero padding. */
  function Hex(b: bv8): (s: string)
    ensures 1 <= |s| <= 2 && AllDigits(s, 16)
    ensures |s| == 1 <==> b < 16
    ensures FromBase(s, 16) == b as nat
  {
    FromToBase(b as nat, 16);
    ByteDigits(b as nat);
    ToBase(b as nat, 16)
  }

  /** A number below 256 takes at most two hexadecimal digits. */
  lemma ByteDigits(n: nat)
    requires n < 256
    ensures |ToBase(n, 16)| <= 2
  {
    if n >= 16 {
      assert ToBase(n / 16, 16) == [DigitChar(n / 16)];
    }
  }

  /** Zero, fifteen, sixteen and 255 are written `0`, `f`, `10` and `ff`. */
  lemma HexExamples()
    ensures Hex(0) == "0" && Hex(15) == "f" && Hex(16) == "10" && Hex(0xFF) == "ff"
  {
    assert ToBase(1, 16) == "1";
    assert ToBase(15, 16) == "f";
  }

  /** What precedes every byte in the array body: a line break, four spaces and `0x`. */
  const EntryPrefix: string := "\n    0x"

  /** One byte of the array body, as `format!("\n    0x{:x},", b)` writes it. */
  function Entry(b: bv8): string
  {
    EntryPrefix + Hex(b) + ","
  }

  /** The array body: every byte's entry, in buffer order. */
  function Body(bytes: seq<bv8>): string
  {
    if bytes == [] then "" else Entry(bytes[0]) + Body(bytes[1..])
  }

  /** The bytes of a buffer as numbers. */
  function Values(bytes: seq<bv8>): (vs: seq<nat>)
    ensures |vs| == |bytes|
    ensures forall i :: 0 <= i < |bytes| ==> vs[i] == bytes[i] as nat
  {
    if bytes == [] then [] else [bytes[0] as nat] + Values(bytes[1..])
  }

  /** The number of leading characters of `t` that are digits of `base`. */
  function DigitRun(t: string, base: nat): (k: nat)
    ensures k <= |t|
  {
    if t == [] || ValueOf(t[0]) >= base then 0 else 1 + DigitRun(t[1..], base)
  }

  /** A run of digits stops at the first character that is not a digit. */
  lemma {:induction false} DigitRunStops(d: string, rest: string, base: nat)
    requires AllDigits(d, base)
    requires rest != [] && ValueOf(rest[0]) >= base
    ensures DigitRun(d + rest, base) == |d|
  {
    if d != [] {
      assert (d + rest)[1..] == d[1..] + rest;
      DigitRunStops(d[1..], rest, base);
    } else {
      assert d + rest == rest;
    }
  }

  /**
   * Reads an array body back into the byte values it lists, or `None` when
   * the text is not a sequence of entries.
   */
  function ParseBody(t: string): Option<seq<nat>>
    decreases |t|
  {
    if t == [] then Some([])
    else if |t| < |EntryPrefix| || t[..|EntryPrefix|] != EntryPrefix then None
    else
      var k := DigitRun(t[|EntryPrefix|..], 16);
      var stop := |EntryPrefix| + k;
      if k == 0 || stop >= |t| || t[stop] != ',' then None
      else
        match ParseBody(t[stop + 1..])
        case None => None
        case Some(rest) => Some([FromBase(t[|EntryPrefix|..stop], 16)] + rest)
  }

  /** Parsing one entry in front of more text reads its byte and moves past the comma. */
  lemma ParseEntry(b: bv8, rest: string)
    ensures ParseBody(Entry(b) + rest) ==
      match ParseBody(rest)
      case None => None
      case Some(vs) => Some([b as nat] + vs)
  {
    var t := Entry(b) + rest;
    var h := Hex(b);
    var n := |EntryPrefix|;
    assert t[..n] == EntryPrefix;
    assert t[n..] == h + ([','] + rest);
    DigitRunStops(h, [','] + rest, 16);
    assert t[n..n + |h|] == h;
    assert t[n + |h|] == ',';
    assert t[n + |h| + 1..] == rest;
  }

  /** The array body lists exactly the buffer's bytes, in order. */
  lemma {:induction false} ParseBodyRoundTrip(bytes: seq<bv8>)
    ensures ParseBody(Body(bytes)) == Some(Values(bytes))
  {
    if bytes != [] {
      ParseBodyRoundTrip(bytes[1..]);
      ParseEntry(bytes[0], Body(bytes[1..]));
    }
  }

  /** The name an orientation is printed with. */
  function OrientationName(o: Orientation): string
  {
    match o
    case Portrait => "Portrait"
    case Landscape => "Landscape"
  }

  /** The comment line: orientation of the original image, final size and format name. */
  function Header(o: Orientation, width: nat, height: nat, formatName: string): string
  {
    "/* " + HeaderFields(o, width, height, formatName) + "*/"
  }

  /** Between the comment markers: the orientation name, then the size and the format name. */
  function HeaderFields(o: Orientation, width: nat, height: nat, formatName: string): string
  {
    OrientationName(o) + " - " + SizeAndFormat(width, height, formatName)
  }

  /** `WxH - ` followed by the format name. */
  function SizeAndFormat(width: nat, height: nat, formatName: string): string
  {
    Decimal(width) + ("x" + (Decimal(height) + (" - " + formatName)))
  }

  /** The start of the declaration, up to the opening bracket of the length. */
  function DeclarationStart(arrayName: string): string
  {
    "const uint8_t " + arrayName + "["
  }

  /** The array declaration: its name, its declared length and its body. */
  function Declaration(arrayName: string, buffer: seq<bv8>): string
  {
    DeclarationStart(arrayName) + (Decimal(|buffer|) + ("] = {" + (Body(buffer) + "};")))
  }

  /** The whole file: the comment line, a line break, then the array declaration. */
  function FileText(o: Orientation, width: nat, height: nat, arrayName: string,
                    buffer: seq<bv8>, formatName: string): string
  {
    Header(o, width, height, formatName) + ("\n" + Declaration(arrayName, buffer))
  }

  /** The declared array length reads back as the number of entries in the body. */
  lemma DeclaredLengthMatchesBody(buffer: seq<bv8>)
    ensures ParseBody(Body(buffer)).Some?
    ensures |ParseBody(Body(buffer)).value| == FromBase(Decimal(|buffer|), 10)
  {
    FromToBase(|buffer|, 10);
    ParseBodyRoundTrip(buffer);
  }

  /** Digits are never a line break. */
  lemma DigitsHaveNoLineBreak(s: string, base: nat)
    requires base <= 16 && AllDigits(s, base)
    ensures '\n' !in s
  {
    forall i | 0 <= i < |s|
      ensures s[i] != '\n'
    {
      assert ValueOf(s[i]) < 16;
    }
  }

  /**
   * Reads the `WxH - ` part of the comment line and returns width, height
   * and the text after the second separator.
   */
  function ParseSize(u: string): Option<(nat, nat, string)>
  {
    var k := DigitRun(u, 10);
    if k == 0 || k >= |u| || u[k] != 'x' then None
    else
      var v := u[k + 1..];
      var m := DigitRun(v, 10);
      if m == 0 || |v| < m + 3 || v[m..m + 3] != " - " then None
      else Some((FromBase(u[..k], 10), FromBase(v[..m], 10), v[m + 3..]))
  }

  /** Reads a comment line back into orientation, width, height and format name. */
  function ParseHeader(t: string): Option<(Orientation, nat, nat, string)>
  {
    if |t| < 5 || t[..3] != "/* " || t[|t| - 2..] != "*/" then None
    else
      match ParseOrientation(t[3..|t| - 2])
      case None => None
      case Some(named) =>
        match ParseSize(named.1)
        case None => None
        case Some(size) => Some((named.0, size.0, size.1, size.2))
  }

  /** Reads the orientation name and its separator, returning the text after them. */
  function ParseOrientation(u: string): Option<(Orientation, string)>
  {
    var portrait := OrientationName(Portrait) + " - ";
    var landscape := OrientationName(Landscape) + " - ";
    if |u| >= |portrait| && u[..|portrait|] == portrait then Some((Portrait, u[|portrait|..]))
    else if |u| >= |landscape| && u[..|landscape|] == landscape then Some((Landscape, u[|landscape|..]))
    else None
  }

  /** Concatenation splits back at the seam. */
  lemma SplitAt(a: string, b: string)
    ensures (a + b)[..|a|] == a && (a + b)[|a|..] == b
  {
  }

  /** Any two digit runs around an `x` and before ` - ` read back as their numbers. */
  lemma {:induction false} SizeParts(w: string, h: string, rest: string)
    requires 1 <= |w| && AllDigits(w, 10)
    requires 1 <= |h| && AllDigits(h, 10)
    ensures ParseSize(w + ("x" + (h + (" - " + rest)))) == Some((FromBase(w, 10), FromBase(h, 10), rest))
  {
    var tail := h + (" - " + rest);
    var u := w + ("x" + tail);
    DigitRunStops(w, "x" + tail, 10);
    SplitAt(w, "x" + tail);
    assert u[|w|] == 'x';
    assert u[|w| + 1..] == tail;
    DigitRunStops(h, " - " + rest, 10);
    SplitAt(h, " - " + rest);
    assert tail[|h|..|h| + 3] == " - ";
    assert tail[|h| + 3..] == rest;
  }

  /** The size and format part of the comment line reads back as what was written. */
  lemma SizeRoundTrip(width: nat, height: nat, formatName: string)
    ensures ParseSize(SizeAndFormat(width, height, formatName)) == Some((width, height, formatName))
  {
    SizeParts(Decimal(width), Decimal(height), formatName);
    FromToBase(width, 10);
    FromToBase(height, 10);
  }

  /** The orientation name and its separator read back as the orientation. */
  lemma OrientationRoundTrip(o: Orientation, rest: string)
    ensures ParseOrientation(OrientationName(o) + " - " + rest) == Some((o, rest))
  {
    var named := OrientationName(o) + " - ";
    SplitAt(named, rest);
    if o == Landscape {
      var portrait := OrientationName(Portrait) + " - ";
      assert (named + rest)[1] != portrait[1];
    }
  }

  /** The comment line reads back as its orientation, width, height and format name. */
  lemma HeaderRoundTrip(o: Orientation, width: nat, height: nat, formatName: string)
    ensures ParseHeader(Header(o, width, height, formatName)) == Some((o, width, height, formatName))
  {
    var fields := HeaderFields(o, width, height, formatName);
    var t := Header(o, width, height, formatName);
    SplitAt("/* ", fields);
    SplitAt("/* " + fields, "*/");
    assert t[3..|t| - 2] == fields;
    OrientationRoundTrip(o, SizeAndFormat(width, height, formatName));
    SizeRoundTrip(width, height, formatName);
  }

  /** Reads an array declaration for `arrayName` back into its declared length and its entries. */
  function ParseDeclaration(t: string, arrayName: string): Option<(nat, seq<nat>)>
  {
    var start := DeclarationStart(arrayName);
    if |t| < |start| || t[..|start|] != start then None
    else
      var u := t[|start|..];
      var k := DigitRun(u, 10);
      if k == 0 || |u| < k + 7 || u[k..k + 5] != "] = {" || u[|u| - 2..] != "};" then None
      else
        match ParseBody(u[k + 5..|u| - 2])
        case None => None
        case Some(entries) => Some((FromBase(u[..k], 10), entries))
  }

  /** After the array name: the digit run of the length, `] = {`, the body and `};` split back apart. */
  lemma LengthAndBody(d: string, body: string)
    requires AllDigits(d, 10)
    ensures var u := d + ("] = {" + (body + "};"));
      DigitRun(u, 10) == |d| && |d| + 7 <= |u| && u[..|d|] == d &&
      u[|d|..|d| + 5] == "] = {" && u[|u| - 2..] == "};" && u[|d| + 5..|u| - 2] == body
  {
    var rest := "] = {" + (body + "};");
    var u := d + rest;
    DigitRunStops(d, rest, 10);
    SplitAt(d, rest);
    SplitAt("] = {", body + "};");
    SplitAt(body, "};");
    assert u[|d|..|d| + 5] == rest[..5];
    assert u[|d| + 5..|u| - 2] == rest[5..|rest| - 2];
  }

  /** A declaration with any digit run as its length reads back as that number and its entries. */
  lemma DeclarationParts(arrayName: string, d: string, body: string)
    requires 1 <= |d| && AllDigits(d, 10)
    ensures ParseDeclaration(DeclarationStart(arrayName) + (d + ("] = {" + (body + "};"))), arrayName) ==
      match ParseBody(body)
      case None => None
      case Some(entries) => Some((FromBase(d, 10), entries))
  {
    SplitAt(DeclarationStart(arrayName), d + ("] = {" + (body + "};")));
    LengthAndBody(d, body);
  }

  /**
   * The array declaration reads back as the buffer's length and its bytes:
   * the declared size always equals the number of entries.
   */
  lemma DeclarationRoundTrip(arrayName: string, buffer: seq<bv8>)
    ensures ParseDeclaration(Declaration(arrayName, buffer), arrayName) == Some((|buffer|, Values(buffer)))
    ensures |Values(buffer)| == |buffer|
  {
    DeclarationParts(arrayName, Decimal(|buffer|), Body(buffer));
    ParseBodyRoundTrip(buffer);
    FromToBase(|buffer|, 10);
  }

  /** The position of the first line break in `t`, or `|t|` when there is none. */
  function LineEnd(t: string): (k: nat)
    ensures k <= |t|
  {
    if t == [] || t[0] == '\n' then 0 else 1 + LineEnd(t[1..])
  }

  /** A line without a line break ends where the next line break starts. */
  lemma {:induction false} LineEndStops(line: string, rest: string)
    requires '\n' !in line
    requires rest != [] && rest[0] == '\n'
    ensures LineEnd(line + rest) == |line|
  {
    if line != [] {
      assert line[0] in line;
      assert (line + rest)[1..] == line[1..] + rest;
      assert forall c :: c in line[1..] ==> c in line;
      LineEndStops(line[1..], rest);
    } else {
      assert line + rest == rest;
    }
  }

  /** A first line without a line break, a line break and the rest split back into the two. */
  lemma LinesSplit(line: string, rest: string)
    requires '\n' !in line
    ensures LineEnd(line + ("\n" + rest)) == |line|
    ensures (line + ("\n" + rest))[..|line|] == line
    ensures (line + ("\n" + rest))[|line| + 1..] == rest
  {
    LineEndStops(line, "\n" + rest);
    SplitAt(line, "\n" + rest);
  }

  /** What a generated file says: the comment line's fields, the declared length and the entries. */
  datatype FileParts = FileParts(
    orientation: Orientation,
    width: nat,
    height: nat,
    formatName: string,
    declaredLength: nat,
    entries: seq<nat>)

  /** Reads a generated file back: the comment line up to the first line break, then the declaration. */
  function ParseFile(t: string, arrayName: string): Option<FileParts>
  {
    var k := LineEnd(t);
    if k == |t| then None
    else
      match ParseHeader(t[..k])
      case None => None
      case Some(h) =>
        match ParseDeclaration(t[k + 1..], arrayName)
        case None => None
        case Some(d) => Some(FileParts(h.0, h.1, h.2, h.3, d.0, d.1))
  }

  /** The comment line never holds a line break when the format name does not. */
  lemma HeaderIsOneLine(o: Orientation, width: nat, height: nat, formatName: string)
    requires '\n' !in formatName
    ensures '\n' !in Header(o, width, height, formatName)
  {
    DigitsHaveNoLineBreak(Decimal(width), 10);
    DigitsHaveNoLineBreak(Decimal(height), 10);
    assert '\n' !in OrientationName(o);
  }

  /**
   * A generated file reads back as everything that went into it: the
   * orientation, the final size and the format name on the comment line,
   * and a declared length equal to the number of bytes, followed by
   * exactly those bytes. The format names are single words, so the comment
   * line ends at the first line break.
   */
  lemma FileTextRoundTrip(o: Orientation, width: nat, height: nat, arrayName: string,
                          buffer: seq<bv8>, formatName: string)
    requires '\n' !in formatName
    ensures ParseFile(FileText(o, width, height, arrayName, buffer, formatName), arrayName)
      == Some(FileParts(o, width, height, formatName, |buffer|, Values(buffer)))
  {
    HeaderIsOneLine(o, width, height, formatName);
    LinesSplit(Header(o, width, height, formatName), Declaration(arrayName, buffer));
    HeaderRoundTrip(o, width, height, formatName);
    DeclarationRoundTrip(arrayName, buffer);
  }
}
