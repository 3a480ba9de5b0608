/** JSON strings: minimal escaping, its reader, and the order of member names. */
module JcsText {
  import opened Wrappers
  import opened Ordering
  import opened Decimals

  const QUOTE: CodePoint := 34
  const BACKSLASH: CodePoint := 92
  const SLASH: CodePoint := 47
  const LETTER_U: CodePoint := 117

  /** Lower-case hexadecimal digit. */
  function HexChar(d: int): CodePoint
    requires 0 <= d < 16
  {
    if d < 10 then 48 + d else 87 + d
  }

  /** Quote, backslash and control characters are escaped, by short form where there is one. */
  function EscapeChar(c: CodePoint): Text {
    if c == QUOTE || c == BACKSLASH then [BACKSLASH, c]
    else if c == 8 then [BACKSLASH, 98]
    else if c == 9 then [BACKSLASH, 116]
    else if c == 10 then [BACKSLASH, 110]
    else if c == 12 then [BACKSLASH, 102]
    else if c == 13 then [BACKSLASH, 114]
    else if c < 32 then [BACKSLASH, LETTER_U, 48, 48, HexChar(c / 16), HexChar(c % 16)]
    else [c]
  }

  function Escape(s: Text): Text {
    if s == [] then [] else EscapeChar(s[0]) + Escape(s[1..])
  }

  function SerializeString(s: Text): Text { [QUOTE] + Escape(s) + [QUOTE] }

  function HexValue(c: CodePoint): (r: Option<int>)
    ensures r.Some? ==> 0 <= r.value < 16
  {
    if IsDigit(c) then Some(c - 48)
    else if 97 <= c <= 102 then Some(c - 87)
    else if 65 <= c <= 70 then Some(c - 55)
    else None
  }

  function Hex4(t: Text): (r: Option<int>)
    ensures r.Some? ==> 0 <= r.value <= 0xFFFF && |t| >= 4
  {
    if |t| < 4 then None
    else
      var a, b, c, d := HexValue(t[0]), HexValue(t[1]), HexValue(t[2]), HexValue(t[3]);
      if a.None? || b.None? || c.None? || d.None? then None
      else Some(a.value * 4096 + b.value * 256 + c.value * 16 + d.value)
  }

  /** One escape after its backslash, with what follows it; surrogate escapes are joined in pairs. */
  function ReadEscape(t: Text): (r: Option<(CodePoint, Text)>)
    ensures r.Some? ==> |r.value.1| < |t|
  {
    if t == [] then None
    else if t[0] in {QUOTE, BACKSLASH, SLASH} then Some((t[0], t[1..]))
    else if t[0] == 98 then Some((8, t[1..]))
    else if t[0] == 116 then Some((9, t[1..]))
    else if t[0] == 110 then Some((10, t[1..]))
    else if t[0] == 102 then Some((12, t[1..]))
    else if t[0] == 114 then Some((13, t[1..]))
    else if t[0] == LETTER_U then
      var high := Hex4(t[1..]);
      if high.None? then None
      else
        var low := if 0xD800 <= high.value <= 0xDBFF && |t| >= 7 && t[5] == BACKSLASH && t[6] == LETTER_U
                   then Hex4(t[7..]) else None;
        if low.Some? && 0xDC00 <= low.value <= 0xDFFF
        then Some((0x10000 + (high.value - 0xD800) * 0x400 + (low.value - 0xDC00), t[11..]))
        else Some((high.value, t[5..]))
    else None
  }

  /** The rest of a string after its opening quote, and what follows the closing one. */
  function ReadString(t: Text): (r: Option<(Text, Text)>)
    ensures r.Some? ==> |r.value.1| < |t|
    decreases |t|
  {
    if t == [] || t[0] < 32 then None
    else if t[0] == QUOTE then Some(([], t[1..]))
    else if t[0] == BACKSLASH then
      var e := ReadEscape(t[1..]);
      if e.None? then None
      else
        var rest := ReadString(e.value.1);
        if rest.None? then None else Some(([e.value.0] + rest.value.0, rest.value.1))
    else
      var rest := ReadString(t[1..]);
      if rest.None? then None else Some(([t[0]] + rest.value.0, rest.value.1))
  }

  lemma ReadEscapedChar(c: CodePoint, rest: Text)
    requires |EscapeChar(c)| != 1
    ensures EscapeChar(c)[0] == BACKSLASH
    ensures ReadEscape((EscapeChar(c) + rest)[1..]) == Some((c, rest))
  {
    var t := (EscapeChar(c) + rest)[1..];
    if t[0] == LETTER_U {
      assert t[1..][0] == 48 && t[1..][1] == 48;
      assert t[1..][2] == HexChar(c / 16) && t[1..][3] == HexChar(c % 16);
      assert HexValue(48) == Some(0);
      assert Hex4(t[1..]) == Some((c / 16) * 16 + c % 16);
      assert t[5..] == rest;
    } else {
      assert t[1..] == rest;
    }
  }

  /** One printed character in front of a string that reads. */
  lemma CharReads(c: CodePoint, tail: Text, s: Text, rest: Text)
    requires ReadString(tail) == Some((s, rest))
    ensures ReadString(EscapeChar(c) + tail) == Some(([c] + s, rest))
  {
    var t := EscapeChar(c) + tail;
    if |EscapeChar(c)| == 1 {
      assert c >= 32 && c != QUOTE && c != BACKSLASH;
      assert t[0] == c && t[1..] == tail;
    } else {
      ReadEscapedChar(c, tail);
      assert t[0] == BACKSLASH;
    }
  }

  lemma Regrouped(a: Text, b: Text, c: Text, d: Text)
    ensures (a + b) + c + d == a + (b + c + d)
  {
  }

  /** Reading a printed string gives the string back, whatever follows. */
  lemma {:induction false} StringReads(s: Text, rest: Text)
    ensures ReadString(Escape(s) + [QUOTE] + rest) == Some((s, rest))
  {
    if s == [] {
      var t := [QUOTE] + rest;
      assert Escape(s) + [QUOTE] + rest == t && t[1..] == rest;
    } else {
      StringReads(s[1..], rest);
      CharReads(s[0], Escape(s[1..]) + [QUOTE] + rest, s[1..], rest);
      Regrouped(EscapeChar(s[0]), Escape(s[1..]), [QUOTE], rest);
      assert s == [s[0]] + s[1..];
    }
  }

  // ---- UTF-16 order of names ----

  predicate IsSurrogate(c: CodePoint) { 0xD800 <= c <= 0xDFFF }

  function Units(c: CodePoint): seq<int> {
    if c < 0x10000 then [c] else [0xD800 + (c - 0x10000) / 0x400, 0xDC00 + (c - 0x10000) % 0x400]
  }

  /** UTF-16 code units; lone surrogates pass through as they are. */
  function Utf16(s: Text): seq<int> {
    if s == [] then [] else Units(s[0]) + Utf16(s[1..])
  }

  function BigEndian(units: seq<int>): seq<int> {
    if units == [] then [] else [units[0] / 256, units[0] % 256] + BigEndian(units[1..])
  }

  function Utf16SortKey(s: Text): seq<int> { BigEndian(Utf16(s)) }

  /** Comparing the big-endian bytes is comparing the code units. */
  lemma {:induction false} ByteOrderIsUnitOrder(a: seq<int>, b: seq<int>)
    ensures LexLe(BigEndian(a), BigEndian(b)) <==> LexLe(a, b)
  {
    if a != [] && b != [] {
      ByteOrderIsUnitOrder(a[1..], b[1..]);
      var x, y := BigEndian(a), BigEndian(b);
      assert x[1..][0] == a[0] % 256 && y[1..][0] == b[0] % 256;
      assert x[1..][1..] == BigEndian(a[1..]) && y[1..][1..] == BigEndian(b[1..]);
    }
  }

  lemma {:induction false} BigEndianInjective(a: seq<int>, b: seq<int>)
    requires BigEndian(a) == BigEndian(b)
    ensures a == b
  {
    ByteOrderIsUnitOrder(a, b);
    ByteOrderIsUnitOrder(b, a);
    LexTotal(BigEndian(a), BigEndian(a));
    LexAntisymmetric(a, b);
  }

  /** Names of well-formed Unicode have distinct UTF-16 forms. */
  lemma {:induction false} Utf16Injective(a: Text, b: Text)
    requires (forall i :: 0 <= i < |a| ==> !IsSurrogate(a[i])) && (forall i :: 0 <= i < |b| ==> !IsSurrogate(b[i]))
    requires Utf16(a) == Utf16(b)
    ensures a == b
  {
    if a != [] && b != [] {
      var x, y := Utf16(a), Utf16(b);
      assert x[0] == Units(a[0])[0] && y[0] == Units(b[0])[0];
      assert |Units(a[0])| == |Units(b[0])|;
      if a[0] >= 0x10000 { assert x[1] == Units(a[0])[1] && y[1] == Units(b[0])[1]; }
      assert a[0] == b[0];
      assert Utf16(a[1..]) == x[|Units(a[0])|..] && Utf16(b[1..]) == y[|Units(b[0])|..];
      Utf16Injective(a[1..], b[1..]);
      assert a == [a[0]] + a[1..] && b == [b[0]] + b[1..];
    }
  }

  datatype Entry<+T> = Entry(key: Text, value: T)

  predicate KeyLe<T>(a: Entry<T>, b: Entry<T>) { LexLe(Utf16SortKey(a.key), Utf16SortKey(b.key)) }

  /** A name comes before another when its UTF-16 code units precede the other's. */
  lemma KeyLeByUnits<T>(a: Entry<T>, b: Entry<T>)
    ensures KeyLe(a, b) <==> Precedes(Utf16(a.key), Utf16(b.key))
  {
    ByteOrderIsUnitOrder(Utf16(a.key), Utf16(b.key));
    LexByPositions(Utf16(a.key), Utf16(b.key));
  }

  /** A code point is its own unit, or the two surrogates that make it up. */
  lemma UnitsMeaning(c: CodePoint)
    ensures c < 0x10000 ==> Units(c) == [c]
    ensures c >= 0x10000 ==>
      && |Units(c)| == 2 && 0xD800 <= Units(c)[0] <= 0xDBFF && 0xDC00 <= Units(c)[1] <= 0xDFFF
      && c == 0x10000 + (Units(c)[0] - 0xD800) * 0x400 + (Units(c)[1] - 0xDC00)
  {
  }

  lemma {:induction false} Utf16Append(s: Text, t: Text)
    ensures Utf16(s + t) == Utf16(s) + Utf16(t)
  {
    if s == [] {
      assert s + t == t;
    } else {
      assert (s + t)[1..] == s[1..] + t;
      Utf16Append(s[1..], t);
    }
  }

  lemma KeyOrder<T(!new)>()
    ensures TotalPreorder(KeyLe<T>)
  {
    forall a: Entry<T>, b: Entry<T> ensures KeyLe(a, b) || KeyLe(b, a) {
      LexTotal(Utf16SortKey(a.key), Utf16SortKey(b.key));
    }
    forall a: Entry<T>, b: Entry<T>, c: Entry<T> | KeyLe(a, b) && KeyLe(b, c) ensures KeyLe(a, c) {
      LexTransitive(Utf16SortKey(a.key), Utf16SortKey(b.key), Utf16SortKey(c.key));
    }
  }

  /** Two names tie in the order exactly when they have the same code units. */
  lemma TiedKeys<T>(a: Entry<T>, b: Entry<T>)
    ensures KeyLe(a, b) && KeyLe(b, a) <==> Utf16(a.key) == Utf16(b.key)
  {
    var x, y := Utf16SortKey(a.key), Utf16SortKey(b.key);
    if LexLe(x, y) && LexLe(y, x) {
      LexAntisymmetric(x, y);
      BigEndianInjective(Utf16(a.key), Utf16(b.key));
    }
    LexTotal(x, x);
  }
}
