/** The few JavaScript and Node.js builtins the routes and components rely on,
    stated over Dafny values: `String(n)` for integers, `parseInt`,
    `String.prototype.trim`, `split(sep)[0]` and `split(sep)[1]`,
    `path.extname`, and the shape of `nanoid` and `crypto.randomBytes(..).toString('hex')`. */
module Runtime {

  datatype Option<T> = None | Some(value: T)

  type Byte = b: int | 0 <= b < 256
  type Bytes = seq<Byte>

  function Min(a: int, b: int): int { if a <= b then a else b }

  // ---------------------------------------------------------------------------
  // Whitespace, trimming and splitting
  // ---------------------------------------------------------------------------

  /** The characters ECMAScript counts as WhiteSpace or LineTerminator
      (what `trim` removes and what `parseInt` skips). */
  predicate IsJsWhitespace(c: char) {
    || c == '\t' || c == '\n' || c == '\U{B}' || c == '\U{C}' || c == '\r' || c == ' '
    || c == '\U{A0}' || c == '\U{1680}' || ('\U{2000}' <= c <= '\U{200A}')
    || c == '\U{2028}' || c == '\U{2029}' || c == '\U{202F}' || c == '\U{205F}'
    || c == '\U{3000}' || c == '\U{FEFF}'
  }

  /** `s` with its longest whitespace prefix removed. */
  function TrimStart(s: string): (r: string)
    ensures |r| <= |s| && r == s[|s| - |r|..]
    ensures r == [] || !IsJsWhitespace(r[0])
    ensures forall i | 0 <= i < |s| - |r| :: IsJsWhitespace(s[i])
  {
    if s != [] && IsJsWhitespace(s[0]) then TrimStart(s[1..]) else s
  }

  /** `s` with its longest whitespace suffix removed. */
  function TrimEnd(s: string): (r: string)
    ensures |r| <= |s| && r == s[..|r|]
    ensures r == [] || !IsJsWhitespace(r[|r| - 1])
    ensures forall i | |r| <= i < |s| :: IsJsWhitespace(s[i])
  {
    if s != [] && IsJsWhitespace(s[|s| - 1]) then TrimEnd(s[..|s| - 1]) else s
  }

  /** `s.trim()` */
  function Trim(s: string): (r: string)
  {
    TrimEnd(TrimStart(s))
  }

  /** Trimming only removes characters. */
  lemma TrimOmits(s: string, c: char)
    requires c !in s
    ensures c !in Trim(s)
  {
    var t := TrimStart(s);
    assert t == s[|s| - |t|..|s|];
    SliceOmits(s, c, |s| - |t|, |s|);
    var r := TrimEnd(t);
    assert r == t[0..|r|];
    SliceOmits(t, c, 0, |r|);
  }

  /** Taking one element out of a sequence takes it out of its multiset. */
  lemma MultisetRemove<T>(b: seq<T>, k: nat)
    requires k < |b|
    ensures multiset(b[..k] + b[k + 1..]) == multiset(b) - multiset{b[k]}
  {
    assert b == b[..k] + [b[k]] + b[k + 1..];
  }

  lemma SliceOmits(s: string, c: char, lo: nat, hi: nat)
    requires c !in s && lo <= hi <= |s|
    ensures c !in s[lo..hi]
  {
    forall i | 0 <= i < hi - lo ensures s[lo..hi][i] != c {
      assert s[lo..hi][i] == s[lo + i];
    }
  }

  /** `s.split(sep)[0]`: the text before the first `sep`, or all of `s`. */
  function FirstField(s: string, sep: char): (r: string)
    ensures |r| <= |s| && r == s[..|r|] && sep !in r
    ensures |r| < |s| ==> s[|r|] == sep
  {
    if s == [] || s[0] == sep then [] else [s[0]] + FirstField(s[1..], sep)
  }

  /** `s.split(sep)[1]`: the text between the first and the second `sep`;
      `None` stands for `undefined` when `s` holds no `sep`. */
  function SecondField(s: string, sep: char): (r: Option<string>)
    ensures r.None? <==> sep !in s
    ensures r.Some? ==> sep !in r.value
  {
    var first := FirstField(s, sep);
    if |first| == |s| then None else Some(FirstField(s[|first| + 1..], sep))
  }

  lemma {:induction false} FirstFieldOfJoin(a: string, b: string, sep: char)
    requires sep !in a
    ensures FirstField(a + [sep] + b, sep) == a
  {
    if a != [] {
      assert (a + [sep] + b)[1..] == a[1..] + [sep] + b;
      FirstFieldOfJoin(a[1..], b, sep);
    }
  }

  lemma {:induction false} FirstFieldWhole(a: string, sep: char)
    requires sep !in a
    ensures FirstField(a, sep) == a
  {
    if a != [] {
      FirstFieldWhole(a[1..], sep);
    }
  }

  /** Splitting `a + sep + b` where neither part holds `sep` gives back `b` as the second field. */
  lemma SecondFieldOfJoin(a: string, b: string, sep: char)
    requires sep !in a && sep !in b
    ensures SecondField(a + [sep] + b, sep) == Some(b)
  {
    var s := a + [sep] + b;
    FirstFieldOfJoin(a, b, sep);
    assert s[|a| + 1..] == b;
    FirstFieldWhole(b, sep);
  }

  /** `s.split(sep)`: every field between separators, so never an empty list. */
  function Split(s: string, sep: char): (r: seq<string>)
    ensures |r| >= 1 && forall i | 0 <= i < |r| :: sep !in r[i]
    ensures r[0] == FirstField(s, sep)
    decreases |s|
  {
    var first := FirstField(s, sep);
    if |first| == |s| then [s] else [first] + Split(s[|first| + 1..], sep)
  }

  /** `fields.join(sep)`. */
  function Join(fields: seq<string>, sep: char): string
  {
    if fields == [] then []
    else if |fields| == 1 then fields[0]
    else fields[0] + [sep] + Join(fields[1..], sep)
  }

  /** Joining the fields of a split gives the text back. */
  lemma {:induction false} JoinSplit(s: string, sep: char)
    ensures Join(Split(s, sep), sep) == s
    decreases |s|
  {
    var first := FirstField(s, sep);
    if |first| < |s| {
      var rest := s[|first| + 1..];
      JoinSplit(rest, sep);
      JoinCons(first, Split(rest, sep), sep);
      FieldThenRest(s, sep);
    }
  }

  lemma JoinCons(first: string, fields: seq<string>, sep: char)
    requires |fields| >= 1
    ensures Join([first] + fields, sep) == first + [sep] + Join(fields, sep)
  {
    assert ([first] + fields)[1..] == fields;
  }

  /** A text holding `sep` is its first field, the separator and the rest. */
  lemma FieldThenRest(s: string, sep: char)
    requires |FirstField(s, sep)| < |s|
    ensures var first := FirstField(s, sep);
            s == first + [sep] + s[|first| + 1..]
  {
    var first := FirstField(s, sep);
    assert s == s[..|first|] + [s[|first|]] + s[|first| + 1..];
  }

  /** Splitting a join of fields that hold no separator gives the fields back. */
  lemma {:induction false} SplitJoin(fields: seq<string>, sep: char)
    requires |fields| >= 1 && forall i | 0 <= i < |fields| :: sep !in fields[i]
    ensures Split(Join(fields, sep), sep) == fields
  {
    if |fields| == 1 {
      FirstFieldWhole(fields[0], sep);
    } else {
      var rest := Join(fields[1..], sep);
      SplitJoin(fields[1..], sep);
      FirstFieldOfJoin(fields[0], rest, sep);
      var s := fields[0] + [sep] + rest;
      assert s[|fields[0]| + 1..] == rest;
    }
  }

  // ---------------------------------------------------------------------------
  // Number to text: `String(n)` for integers
  // ---------------------------------------------------------------------------

  predicate IsDecimalDigit(c: char) { '0' <= c <= '9' }

  function DigitChar(d: nat): (c: char)
    requires d < 10
    ensures IsDecimalDigit(c) && (c as int) - ('0' as int) == d
  {
    (('0' as int) + d) as char
  }

  /** `String(n)` for a non-negative integer: its decimal digits, most significant first. */
  function DecimalString(n: nat): (r: string)
    ensures |r| > 0 && forall i | 0 <= i < |r| :: IsDecimalDigit(r[i])
  {
    if n < 10 then [DigitChar(n)] else DecimalString(n / 10) + [DigitChar(n % 10)]
  }

  /** `String(i)` for any integer (`String(-0)` is `"0"`). */
  function IntString(i: int): (r: string)
    ensures |r| > 0
    ensures i < 0 <==> r[0] == '-'
  {
    if i < 0 then "-" + DecimalString(-i) else DecimalString(i)
  }

  // ---------------------------------------------------------------------------
  // Text to number: `parseInt(s)` with no radix argument
  // ---------------------------------------------------------------------------

  /** The value of `c` as a digit in base 10 or 16. */
  function DigitOf(c: char, radix: nat): Option<nat>
  {
    if '0' <= c <= '9' then Some((c as int - '0' as int) as nat)
    else if radix == 16 && 'a' <= c <= 'f' then Some((c as int - 'a' as int + 10) as nat)
    else if radix == 16 && 'A' <= c <= 'F' then Some((c as int - 'A' as int + 10) as nat)
    else None
  }

  predicate AllDigits(s: string, radix: nat) {
    forall i | 0 <= i < |s| :: DigitOf(s[i], radix).Some?
  }

  /** The longest prefix of `s` made of digits of `radix`. */
  function DigitPrefix(s: string, radix: nat): (r: string)
    ensures |r| <= |s| && r == s[..|r|] && AllDigits(r, radix)
    ensures |r| < |s| ==> DigitOf(s[|r|], radix).None?
  {
    if s == [] || DigitOf(s[0], radix).None? then [] else [s[0]] + DigitPrefix(s[1..], radix)
  }

  /** The value of a digit string in base 10 or 16, most significant digit first. */
  function DigitsValue(s: string, radix: nat): nat
    requires AllDigits(s, radix)
  {
    if s == [] then 0
    else
      var high := DigitsValue(s[..|s| - 1], radix);
      (if radix == 16 then high * 16 else high * 10) + DigitOf(s[|s| - 1], radix).value
  }

  /** `parseInt(s)`: skip leading whitespace, take one optional sign, read
      hexadecimal after a `0x`/`0X` prefix and decimal otherwise, stop at the
      first character that is not a digit. `None` stands for `NaN`. */
  function ParseInt(s: string): Option<int>
  {
    var t := TrimStart(s);
    if |t| > 0 && t[0] == '-' then
      match ParseMagnitude(t[1..]) case None => None case Some(m) => Some(-m)
    else if |t| > 0 && t[0] == '+' then ParseMagnitude(t[1..])
    else ParseMagnitude(t)
  }

  /** The unsigned part of `parseInt`: hexadecimal after `0x`/`0X`, decimal otherwise. */
  function ParseMagnitude(u: string): Option<int>
  {
    if |u| >= 2 && u[0] == '0' && (u[1] == 'x' || u[1] == 'X') then LeadingNumber(u[2..], 16)
    else LeadingNumber(u, 10)
  }

  /** The number spelt by the leading digits of `v`, or `None` when `v` does not start with one. */
  function LeadingNumber(v: string, radix: nat): Option<int>
  {
    var digits := DigitPrefix(v, radix);
    if digits == [] then None else Some(DigitsValue(digits, radix))
  }

  lemma {:induction false} DecimalStringValue(n: nat)
    ensures AllDigits(DecimalString(n), 10)
    ensures DigitsValue(DecimalString(n), 10) == n
  {
    var s := DecimalString(n);
    if n >= 10 {
      DecimalStringValue(n / 10);
      assert s[..|s| - 1] == DecimalString(n / 10);
    }
  }

  lemma {:induction false} DigitPrefixOfDigits(s: string, radix: nat)
    requires AllDigits(s, radix)
    ensures DigitPrefix(s, radix) == s
  {
    if s != [] {
      DigitPrefixOfDigits(s[1..], radix);
    }
  }

  /** `parseInt` reads a plain decimal digit string as its value. */
  lemma ParseIntOfDecimalDigits(s: string)
    requires s != [] && forall i | 0 <= i < |s| :: IsDecimalDigit(s[i])
    ensures AllDigits(s, 10)
    ensures ParseInt(s) == Some(DigitsValue(s, 10))
  {
    assert !IsJsWhitespace(s[0]);
    assert TrimStart(s) == s;
    assert |s| >= 2 ==> s[1] != 'x' && s[1] != 'X';
    DigitPrefixOfDigits(s, 10);
    assert ParseMagnitude(s) == LeadingNumber(s, 10);
  }

  /** `parseInt(String(n))` gives `n` back for every non-negative integer. */
  lemma ParseIntDecimal(n: nat)
    ensures ParseInt(DecimalString(n)) == Some(n)
  {
    DecimalStringValue(n);
    ParseIntOfDecimalDigits(DecimalString(n));
  }

  /** `parseInt(String(i))` gives `i` back for every integer. */
  lemma ParseIntIntString(i: int)
    ensures ParseInt(IntString(i)) == Some(i)
  {
    if i >= 0 {
      ParseIntDecimal(i);
    } else {
      ParseIntDecimal(-i);
      ParseIntSigned(DecimalString(-i));
    }
  }

  /** A string that starts with a digit is read without trimming or a sign, and a
      minus sign in front of it negates it. */
  lemma ParseIntSigned(d: string)
    requires d != [] && IsDecimalDigit(d[0])
    ensures ParseInt(d) == ParseMagnitude(d)
    ensures ParseInt("-" + d) == match ParseMagnitude(d) case None => None case Some(m) => Some(-m)
  {
    assert !IsJsWhitespace(d[0]);
    assert TrimStart(d) == d;
    var s := "-" + d;
    assert s[0] == '-' && !IsJsWhitespace(s[0]);
    assert TrimStart(s) == s;
    assert s[1..] == d;
  }

  /** Two different integers never print the same. */
  lemma DecimalStringInjective(m: nat, n: nat)
    requires m != n
    ensures DecimalString(m) != DecimalString(n)
  {
    ParseIntDecimal(m);
    ParseIntDecimal(n);
  }

  // ---------------------------------------------------------------------------
  // path.extname (POSIX)
  // ---------------------------------------------------------------------------

  /** The index of the last `c` in `s`, if any. */
  function LastIndexOf(s: string, c: char): (r: Option<nat>)
    ensures r.None? <==> c !in s
    ensures r.Some? ==> r.value < |s| && s[r.value] == c && c !in s[r.value + 1..]
  {
    if s == [] then None
    else if s[|s| - 1] == c then Some(|s| - 1)
    else
      var r := LastIndexOf(s[..|s| - 1], c);
      assert r.Some? ==> s[r.value + 1..] == s[..|s| - 1][r.value + 1..] + [s[|s| - 1]];
      r
  }

  /** `path.extname(p)`: from the last `.` of the last path segment (trailing
      slashes ignored) to its end; empty when that segment holds no `.`, when
      its only leading character is the `.`, or when the segment is `..`. */
  function ExtName(p: string): (r: string)
    ensures r == [] || (r[0] == '.' && '.' !in r[1..] && '/' !in r)
  {
    var q := TrimTrailingSlashes(p);
    var base := match LastIndexOf(q, '/') case None => q case Some(k) => q[k + 1..];
    match LastIndexOf(base, '.')
    case None => []
    case Some(d) =>
      if d == 0 || base == ".." then []
      else
        assert '/' !in base;
        base[d..]
  }

  function TrimTrailingSlashes(p: string): (r: string)
    ensures |r| <= |p| && r == p[..|r|] && (r == [] || r[|r| - 1] != '/')
  {
    if p != [] && p[|p| - 1] == '/' then TrimTrailingSlashes(p[..|p| - 1]) else p
  }

  /** A plain file name `stem.ext` has extension `.ext`. */
  lemma ExtNameOfPlainName(stem: string, ext: string)
    requires stem != [] && !(stem == "." && ext == [])
    requires '/' !in stem && '/' !in ext && '.' !in ext
    ensures ExtName(stem + "." + ext) == "." + ext
  {
    var p := stem + "." + ext;
    PlainNameParts(stem, ext);
    assert p != ".." by { if ext == [] { assert stem != "."; assert |p| == |stem| + 1; } }
  }

  lemma PlainNameParts(stem: string, ext: string)
    requires stem != [] && '/' !in stem && '/' !in ext && '.' !in ext
    ensures var p := stem + "." + ext;
            && TrimTrailingSlashes(p) == p && LastIndexOf(p, '/') == None
            && LastIndexOf(p, '.') == Some(|stem|) && p[|stem|..] == "." + ext
  {
    var p := stem + "." + ext;
    NoSlashInPlainName(stem, ext);
    NoTrailingSlash(p);
    NoLastSlash(p);
    LastDotOfPlainName(stem, ext);
    SuffixAfterStem(stem, ext);
  }

  lemma NoLastSlash(p: string)
    requires '/' !in p
    ensures LastIndexOf(p, '/') == None
  {
  }

  lemma SuffixAfterStem(stem: string, ext: string)
    ensures (stem + "." + ext)[|stem|..] == "." + ext
  {
  }

  lemma NoTrailingSlash(p: string)
    requires p != [] && '/' !in p
    ensures TrimTrailingSlashes(p) == p
  {
    assert p[|p| - 1] in p;
  }

  lemma NoSlashInPlainName(stem: string, ext: string)
    requires '/' !in stem && '/' !in ext
    ensures '/' !in stem + "." + ext
  {
    var p := stem + "." + ext;
    forall i | 0 <= i < |p| ensures p[i] != '/' {
      if i < |stem| { assert p[i] == stem[i]; } else if i > |stem| { assert p[i] == ext[i - |stem| - 1]; }
    }
  }

  lemma LastDotOfPlainName(stem: string, ext: string)
    requires '.' !in ext
    ensures LastIndexOf(stem + "." + ext, '.') == Some(|stem|)
  {
    var p := stem + "." + ext;
    assert p[|stem|] == '.' && p[|stem| + 1..] == ext;
  }

  /** A name with no `.` has no extension. */
  lemma ExtNameWithoutDot(p: string)
    requires '.' !in p
    ensures ExtName(p) == []
  {
    var q := TrimTrailingSlashes(p);
    assert forall i | 0 <= i < |q| :: q[i] == p[i];
    match LastIndexOf(q, '/')
    case None =>
    case Some(k) =>
      var base := q[k + 1..];
      assert forall i | 0 <= i < |base| :: base[i] == q[k + 1 + i];
  }

  // ---------------------------------------------------------------------------
  // Random identifiers: only their shape, from the random bytes that drive them
  // ---------------------------------------------------------------------------

  predicate IsLowerHexDigit(c: char) { '0' <= c <= '9' || 'a' <= c <= 'f' }

  function HexDigit(d: nat): (c: char)
    requires d < 16
    ensures IsLowerHexDigit(c)
  {
    if d < 10 then (('0' as int) + d) as char else (('a' as int) + d - 10) as char
  }

  /** `buffer.toString('hex')`: two lower-case hex digits per byte, high nibble first. */
  function HexEncode(bytes: Bytes): (r: string)
    ensures |r| == 2 * |bytes|
    ensures forall i | 0 <= i < |r| :: IsLowerHexDigit(r[i])
  {
    if bytes == [] then []
    else [HexDigit(bytes[0] / 16), HexDigit(bytes[0] % 16)] + HexEncode(bytes[1..])
  }

  function HexValue(c: char): nat
  {
    if '0' <= c <= '9' then (c as int - '0' as int) as nat
    else if 'a' <= c <= 'f' then (c as int - 'a' as int + 10) as nat
    else 0
  }

  /** Reads pairs of hex digits back into bytes; a trailing odd digit is dropped. */
  function HexDecode(s: string): Bytes
  {
    if |s| < 2 then []
    else [(HexValue(s[0]) * 16 + HexValue(s[1])) % 256] + HexDecode(s[2..])
  }

  /** Hex encoding loses nothing: decoding gives the bytes back. */
  lemma {:induction false} HexRoundTrip(bytes: Bytes)
    ensures HexDecode(HexEncode(bytes)) == bytes
  {
    if bytes != [] {
      var s := HexEncode(bytes);
      assert s[2..] == HexEncode(bytes[1..]);
      HexRoundTrip(bytes[1..]);
      var b := bytes[0];
      assert HexValue(s[0]) == b / 16 && HexValue(s[1]) == b % 16;
    }
  }

  /** A string field of a JSON body is truthy when it is present and not empty. */
  predicate Truthy(field: Option<string>)
  {
    field.Some? && field.value != []
  }

  /** An environment variable interpolated into a template literal: `${v}` reads
      `undefined` when the variable is not set. */
  function EnvText(v: Option<string>): string
  {
    match v case Some(s) => s case None => "undefined"
  }

  /** The 64-character alphabet of `nanoid`'s `urlAlphabet`. */
  const UrlAlphabet := "useandom-26T198340PX75pxJACKVERYMINDBUSHWOLF_GQZbfghjklqvwyzrict"

  /** `nanoid(size)` given the `size` random bytes it draws: it walks the
      bytes from the last to the first and keeps the low six bits of each. */
  function NanoId(bytes: Bytes): (id: string)
    ensures |id| == |bytes|
    ensures forall i | 0 <= i < |id| :: id[i] in UrlAlphabet
  {
    seq(|bytes|, i requires 0 <= i < |bytes| => UrlAlphabet[bytes[|bytes| - 1 - i] % 64])
  }
}
