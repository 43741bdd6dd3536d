/**
  The JSON exporter's string escaper and the separator structure of its
  lists. Strings are byte sequences: `escape_json` works on the bytes of
  a `std::string` and never looks at their encoding.
*/
module Json {
  import opened Wrappers

  const Quote: byte := 0x22
  const Backslash: byte := 0x5C
  const Slash: byte := 0x2F
  const Comma: byte := 0x2C
  const Backspace: byte := 0x08
  const FormFeed: byte := 0x0C
  const LineFeed: byte := 0x0A
  const CarriageReturn: byte := 0x0D
  const Tab: byte := 0x09
  const LetterB: byte := 0x62
  const LetterF: byte := 0x66
  const LetterN: byte := 0x6E
  const LetterR: byte := 0x72
  const LetterT: byte := 0x74
  const LetterU: byte := 0x75

  /** The lowercase hexadecimal digit for `n`, as `std::hex` prints it. */
  function HexDigit(n: nat): (d: byte)
    requires n < 16
    ensures HexValue(d) == Some(n)
  {
    if n < 10 then 0x30 + n else 0x61 + (n - 10)
  }

  /** The value of a hexadecimal digit of either case. */
  function HexValue(d: byte): (r: Option<nat>)
    ensures r.Some? ==> r.value < 16
  {
    if 0x30 <= d <= 0x39 then Some(d - 0x30)
    else if 0x61 <= d <= 0x66 then Some(d - 0x61 + 10)
    else if 0x41 <= d <= 0x46 then Some(d - 0x41 + 10)
    else None
  }

  /** The escape of one byte in the exporter's JSON output. */
  function EscapeByte(c: byte): (r: seq<byte>)
    ensures 1 <= |r| <= 6
    ensures forall i :: 0 <= i < |r| ==> r[i] >= 0x20
    ensures c >= 0x20 && c != Quote && c != Backslash ==> r == [c]
    ensures c == Quote ==> r == [Backslash, Quote]
    ensures c == Backslash ==> r == [Backslash, Backslash]
    ensures c == Backspace ==> r == [Backslash, LetterB]
    ensures c == FormFeed ==> r == [Backslash, LetterF]
    ensures c == LineFeed ==> r == [Backslash, LetterN]
    ensures c == CarriageReturn ==> r == [Backslash, LetterR]
    ensures c == Tab ==> r == [Backslash, LetterT]
    ensures c < 0x20 && c !in {Backspace, FormFeed, LineFeed, CarriageReturn, Tab} ==>
      |r| == 6 && r[..2] == [Backslash, LetterU] && r[2] == 0x30 && r[3] == 0x30 &&
      HexValue(r[4]) == Some(c / 16) && HexValue(r[5]) == Some(c % 16) &&
      (forall i :: 2 <= i < 6 ==> !(0x41 <= r[i] <= 0x46))
  {
    if c == Quote then [Backslash, Quote]
    else if c == Backslash then [Backslash, Backslash]
    else if c == Backspace then [Backslash, LetterB]
    else if c == FormFeed then [Backslash, LetterF]
    else if c == LineFeed then [Backslash, LetterN]
    else if c == CarriageReturn then [Backslash, LetterR]
    else if c == Tab then [Backslash, LetterT]
    else if c < 0x20 then [Backslash, LetterU, 0x30, 0x30, HexDigit(c / 16), HexDigit(c % 16)]
    else [c]
  }

  /**
    `escape_json`: each byte escaped in turn.  The result never holds a
    control byte, so it may stand inside a JSON string as it is, and it is
    at most six times as long as the input.
  */
  function Escape(s: seq<byte>): (r: seq<byte>)
    ensures |s| <= |r| <= 6 * |s|
    ensures forall i :: 0 <= i < |r| ==> r[i] >= 0x20
    decreases |s|
  {
    if s == [] then [] else EscapeByte(s[0]) + Escape(s[1..])
  }

  /** Escaping works byte by byte, so it distributes over concatenation. */
  lemma {:induction false} EscapeConcat(a: seq<byte>, b: seq<byte>)
    ensures Escape(a + b) == Escape(a) + Escape(b)
    decreases |a|
  {
    if a != [] {
      assert (a + b)[0] == a[0] && (a + b)[1..] == a[1..] + b;
      EscapeConcat(a[1..], b);
    } else {
      assert a + b == b;
    }
  }

  // ---------------------------------------------------------------------
  // Decoding a JSON string body (section 7 of RFC 8259)

  function Prepend(prefix: seq<byte>, rest: Option<seq<byte>>): Option<seq<byte>> {
    match rest
    case Some(r) => Some(prefix + r)
    case None => None
  }

  /** The code point of four hexadecimal digits. */
  function Hex4(d: seq<byte>): (r: Option<nat>)
    requires |d| == 4
    ensures r.Some? ==> r.value < 0x1_0000
  {
    match (HexValue(d[0]), HexValue(d[1]), HexValue(d[2]), HexValue(d[3]))
    case (Some(a), Some(b), Some(c), Some(e)) => Some(((a * 16 + b) * 16 + c) * 16 + e)
    case _ => None
  }

  /**
    The UTF-8 bytes of a code point from a `\u` escape. Surrogates, which
    only make sense in pairs, are not decoded.
  */
  function Utf8(cp: nat): Option<seq<byte>>
    requires cp < 0x1_0000
  {
    if cp < 0x80 then Some([cp])
    else if cp < 0x800 then Some([0xC0 + cp / 0x40, 0x80 + cp % 0x40])
    else if 0xD800 <= cp < 0xE000 then None
    else Some([0xE0 + cp / 0x1000, 0x80 + (cp / 0x40) % 0x40, 0x80 + cp % 0x40])
  }

  /** The byte a two-character escape `\e` stands for, if `e` names one. */
  function ShortEscape(e: byte): Option<byte> {
    if e == Quote then Some(Quote)
    else if e == Backslash then Some(Backslash)
    else if e == Slash then Some(Slash)
    else if e == LetterB then Some(Backspace)
    else if e == LetterF then Some(FormFeed)
    else if e == LetterN then Some(LineFeed)
    else if e == LetterR then Some(CarriageReturn)
    else if e == LetterT then Some(Tab)
    else None
  }

  /**
    Decodes the text between the quotes of a JSON string: unescaped bytes
    must not be control bytes, quotes or backslashes; escapes are the
    eight two-character ones and `\u` with four hexadecimal digits of
    either case. `None` means the text is not a valid string body.
  */
  function Decode(t: seq<byte>): Option<seq<byte>>
    decreases |t|
  {
    if t == [] then Some([])
    else if t[0] == Backslash then
      if |t| < 2 then None
      else if t[1] == LetterU then
        if |t| < 6 then None
        else match Hex4(t[2..6])
          case None => None
          case Some(cp) =>
            match Utf8(cp)
            case None => None
            case Some(bytes) => Prepend(bytes, Decode(t[6..]))
      else match ShortEscape(t[1])
        case None => None
        case Some(c) => Prepend([c], Decode(t[2..]))
    else if t[0] < 0x20 || t[0] == Quote then None
    else Prepend([t[0]], Decode(t[1..]))
  }

  lemma DecodeEscapeByte(c: byte, rest: seq<byte>)
    ensures Decode(EscapeByte(c) + rest) == Prepend([c], Decode(rest))
  {
    var e := EscapeByte(c);
    var t := e + rest;
    if |e| == 1 {
      assert t[0] == c && t[1..] == rest;
    } else if |e| == 2 {
      assert t[0] == Backslash && t[1] == e[1] && t[2..] == rest;
    } else {
      assert t[0] == Backslash && t[1] == LetterU && t[2..6] == e[2..6] && t[6..] == rest;
      assert Hex4(t[2..6]) == Some(c);
    }
  }

  /** Decoding the escaped text gives back the original bytes. */
  lemma {:induction false} DecodeEscape(s: seq<byte>)
    ensures Decode(Escape(s)) == Some(s)
    decreases |s|
  {
    if s != [] {
      DecodeEscape(s[1..]);
      DecodeEscapeByte(s[0], Escape(s[1..]));
      assert [s[0]] + s[1..] == s;
    }
  }

  /** Escaping is injective: two strings with the same escape are equal. */
  lemma EscapeInjective(a: seq<byte>, b: seq<byte>)
    requires Escape(a) == Escape(b)
    ensures a == b
  {
    DecodeEscape(a);
    DecodeEscape(b);
  }

  // ---------------------------------------------------------------------
  // Lists joined with commas

  /** The number of bytes in all the elements together. */
  function TotalLength(items: seq<seq<byte>>): nat
    decreases |items|
  {
    if items == [] then 0 else |items[0]| + TotalLength(items[1..])
  }

  /**
    The reference form of a comma-separated list: a comma between each
    two neighbours, so the list starts with its first element, ends with
    its last, and adds exactly one byte per neighbouring pair.
  */
  function Join(items: seq<seq<byte>>): (r: seq<byte>)
    ensures items == [] ==> r == []
    ensures items != [] ==> |r| == TotalLength(items) + |items| - 1
    ensures items != [] ==> |items[0]| <= |r| && r[..|items[0]|] == items[0]
    ensures items != [] ==> |items[|items| - 1]| <= |r| && r[|r| - |items[|items| - 1]|..] == items[|items| - 1]
    decreases |items|
  {
    if items == [] then []
    else if |items| == 1 then items[0]
    else
      var tail := Join(items[1..]);
      var last := items[|items| - 1];
      assert items[1..][|items[1..]| - 1] == last;
      var r := items[0] + [Comma] + tail;
      assert r[|r| - |last|..] == tail[|tail| - |last|..];
      r
  }

  lemma {:induction false} JoinSnoc(items: seq<seq<byte>>, last: seq<byte>)
    requires items != []
    ensures Join(items + [last]) == Join(items) + [Comma] + last
    decreases |items|
  {
    var all := items + [last];
    assert all[0] == items[0] && all[1..] == items[1..] + [last];
    if |items| > 1 {
      JoinSnoc(items[1..], last);
    }
  }

  /** The list of the first i + 1 elements is that of the first i, a comma, then element i. */
  lemma JoinPrefixStep(items: seq<seq<byte>>, i: nat)
    requires i < |items|
    ensures i == 0 ==> Join(items[..1]) == items[0]
    ensures 0 < i ==> Join(items[..i + 1]) == Join(items[..i]) + [Comma] + items[i]
  {
    if i > 0 {
      JoinSnoc(items[..i], items[i]);
      assert items[..i] + [items[i]] == items[..i + 1];
    } else {
      assert items[..1] == [items[0]];
    }
  }

  /**
    The writer's loop over a list (host objects, histogram pairs, recent
    round-trip times): each element, then a comma if another follows.
    The loop below emits that comma at the start of the next step, which
    writes the same bytes.
  */
  method WriteSeparated(items: seq<seq<byte>>) returns (out: seq<byte>)
    ensures out == Join(items)
  {
    out := [];
    var i := 0;
    while i < |items|
      invariant 0 <= i <= |items|
      invariant out == Join(items[..i])
    {
      JoinPrefixStep(items, i);
      if i > 0 {
        out := out + [Comma];
      }
      out := out + items[i];
      i := i + 1;
    }
    assert items[..|items|] == items;
  }

  /** Splits bytes at every comma. */
  function Split(s: seq<byte>): (r: seq<seq<byte>>)
    ensures r != []
    decreases |s|
  {
    if s == [] then [[]]
    else
      var rest := Split(s[1..]);
      if s[0] == Comma then [[]] + rest
      else [[s[0]] + rest[0]] + rest[1..]
  }

  predicate NoComma(s: seq<byte>) {
    forall i :: 0 <= i < |s| ==> s[i] != Comma
  }

  lemma {:induction false} SplitItem(item: seq<byte>, rest: seq<byte>)
    requires NoComma(item)
    ensures Split(item + rest) == [item + Split(rest)[0]] + Split(rest)[1..]
    decreases |item|
  {
    if item == [] {
      var r := Split(rest);
      assert item + rest == rest && item + r[0] == r[0];
      assert [r[0]] + r[1..] == r;
    } else {
      var t := item + rest;
      assert t[0] == item[0] && t[1..] == item[1..] + rest;
      SplitItem(item[1..], rest);
      assert [item[0]] + (item[1..] + Split(rest)[0]) == item + Split(rest)[0];
    }
  }

  /** A comma-free element splits into itself alone. */
  lemma SplitWhole(item: seq<byte>)
    requires NoComma(item)
    ensures Split(item) == [item]
  {
    SplitItem(item, []);
    assert item + [] == item;
  }

  /** A comma after a comma-free element ends that element. */
  lemma SplitAtComma(item: seq<byte>, tail: seq<byte>)
    requires NoComma(item)
    ensures Split(item + [Comma] + tail) == [item] + Split(tail)
  {
    var t := [Comma] + tail;
    assert item + [Comma] + tail == item + t;
    SplitItem(item, t);
    assert t[0] == Comma && t[1..] == tail;
    assert Split(t) == [[]] + Split(tail);
    assert item + [] == item;
  }

  /**
    The comma structure is unambiguous: when no element holds a comma,
    splitting the joined list at its commas gives the elements back, so
    there is no leading or trailing separator.
  */
  lemma {:induction false} SplitJoin(items: seq<seq<byte>>)
    requires items != []
    requires forall k :: 0 <= k < |items| ==> NoComma(items[k])
    ensures Split(Join(items)) == items
    decreases |items|
  {
    if |items| == 1 {
      assert Join(items) == items[0];
      SplitWhole(items[0]);
    } else {
      var rest := items[1..];
      assert Join(items) == items[0] + [Comma] + Join(rest);
      assert forall k :: 0 <= k < |rest| ==> NoComma(rest[k]) by {
        forall k | 0 <= k < |rest| ensures NoComma(rest[k]) {
          assert rest[k] == items[k + 1];
        }
      }
      SplitJoin(rest);
      SplitAtComma(items[0], Join(rest));
      assert [items[0]] + rest == items;
    }
  }
}
