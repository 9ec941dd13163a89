/** The incremental JSON printer (mlink_json.c): the text it builds in a growing buffer, and a parser of
    RFC 8259 texts that reads it back.
 */
module MlinkJson {
  import opened Wrappers

  datatype Kind = Object | Array

  /** A value; Doc is an object or an array. The printer has no fractions, literals or escapes. */
  datatype Json = Num(n: int) | Str(s: string) | Doc(kind: Kind, items: Items)

  /** Members of an object or, without keys, elements of an array, the last one outermost. */
  datatype Items = Empty | Items(init: Items, key: string, value: Json)

  function Count(items: Items): nat {
    if items.Empty? then 0 else Count(items.init) + 1
  }

  const QUOTE := '"'

  function Open(kind: Kind): char {
    if kind == Object then '{' else '['
  }

  function Close(kind: Kind): char {
    if kind == Object then '}' else ']'
  }

  // ---- The text of a value ----

  predicate IsDigit(c: char) {
    '0' <= c <= '9'
  }

  function DigitValue(c: char): nat
    requires IsDigit(c)
  {
    (c - '0') as int
  }

  function DigitChar(d: nat): (c: char)
    requires d < 10
    ensures IsDigit(c) && DigitValue(c) == d
  {
    '0' + d as char
  }

  predicate AllDigits(s: string) {
    forall i :: 0 <= i < |s| ==> IsDigit(s[i])
  }

  function Digits(n: nat): (s: string)
    ensures s != [] && AllDigits(s)
  {
    if n < 10 then [DigitChar(n)] else Digits(n / 10) + [DigitChar(n % 10)]
  }

  /** %d. */
  function Decimal(n: int): (s: string)
    ensures s != []
  {
    if n < 0 then ['-'] + Digits(-n) else Digits(n)
  }

  function Quoted(s: string): string {
    [QUOTE] + s + [QUOTE]
  }

  function KeyText(kind: Kind, key: string): string {
    if kind == Object then Quoted(key) + [':'] else []
  }

  function Text(j: Json): (t: string)
    ensures t != []
  {
    match j
    case Num(n) => Decimal(n)
    case Str(s) => Quoted(s)
    case Doc(kind, items) => [Open(kind)] + ItemsText(kind, items) + [Close(kind)]
  }

  function ItemsText(kind: Kind, items: Items): string
    decreases items
  {
    match items
    case Empty => []
    case Items(init, key, value) =>
      (if init.Empty? then [] else ItemsText(kind, init) + [',']) + (KeyText(kind, key) + Text(value))
  }

  // ---- The parser: section 2 to section 7 of RFC 8259 for texts without whitespace ----

  datatype Scan = NoString | Scanned(s: string, rest: string)

  predicate Plain(c: char) {
    c != QUOTE && c != '\\' && c >= ' '
  }

  /** The rest of a string after its opening quote. */
  function ScanString(s: string): (r: Scan)
    ensures r.Scanned? ==> |r.rest| < |s|
  {
    if s == [] then NoString
    else if s[0] == QUOTE then Scanned([], s[1..])
    else if !Plain(s[0]) then NoString
    else
      match ScanString(s[1..])
      case NoString => NoString
      case Scanned(t, rest) => Scanned([s[0]] + t, rest)
  }

  function LeadingDigits(s: string): (n: nat)
    ensures n <= |s| && AllDigits(s[..n]) && (n < |s| ==> !IsDigit(s[n]))
  {
    if s == [] || !IsDigit(s[0]) then 0 else 1 + LeadingDigits(s[1..])
  }

  function DigitsValue(s: string): nat
    requires AllDigits(s)
  {
    if s == [] then 0 else DigitsValue(s[..|s| - 1]) * 10 + DigitValue(s[|s| - 1])
  }

  datatype Parse = Fail | Parsed(value: Json, rest: string)

  /** Digits without a leading zero. */
  function ParseNat(s: string, sign: int): (r: Parse)
    ensures r.Parsed? ==> |r.rest| < |s|
  {
    var n := LeadingDigits(s);
    if n == 0 || (n > 1 && s[0] == '0') then Fail else Parsed(Num(sign * DigitsValue(s[..n])), s[n..])
  }

  function ParseValue(s: string): (r: Parse)
    ensures r.Parsed? ==> |r.rest| < |s|
    decreases |s|, 0
  {
    if s == [] then Fail
    else if s[0] == QUOTE then
      match ScanString(s[1..])
      case NoString => Fail
      case Scanned(t, rest) => Parsed(Str(t), rest)
    else if s[0] == '-' then ParseNat(s[1..], -1)
    else if s[0] == '{' then ParseDoc(Object, s[1..])
    else if s[0] == '[' then ParseDoc(Array, s[1..])
    else ParseNat(s, 1)
  }

  /** After the opening brace or bracket. */
  function ParseDoc(kind: Kind, s: string): (r: Parse)
    ensures r.Parsed? ==> |r.rest| < |s| && r.value.Doc?
    decreases |s|, 2
  {
    if s != [] && s[0] == Close(kind) then Parsed(Doc(kind, Empty), s[1..]) else ParseItems(kind, s, Empty)
  }

  /** One more member or element behind acc, and whatever follows it. */
  function ParseItems(kind: Kind, s: string, acc: Items): (r: Parse)
    ensures r.Parsed? ==> |r.rest| < |s| && r.value.Doc? && Count(r.value.items) > Count(acc)
    decreases |s|, 1
  {
    match ParseKey(kind, s)
    case NoString => Fail
    case Scanned(key, t) =>
      match ParseValue(t)
      case Fail => Fail
      case Parsed(value, rest) => ParseNext(kind, rest, Items(acc, key, value))
  }

  /** The key of a member and its colon; an element has none. */
  function ParseKey(kind: Kind, s: string): (r: Scan)
    ensures r.Scanned? ==> |r.rest| <= |s|
  {
    if kind == Array then Scanned([], s)
    else if s == [] || s[0] != QUOTE then NoString
    else
      match ScanString(s[1..])
      case NoString => NoString
      case Scanned(key, rest) => if rest == [] || rest[0] != ':' then NoString else Scanned(key, rest[1..])
  }

  function ParseNext(kind: Kind, s: string, acc: Items): (r: Parse)
    ensures r.Parsed? ==> |r.rest| < |s| && r.value.Doc? && Count(r.value.items) >= Count(acc)
    ensures r.Parsed? && Count(r.value.items) == Count(acc) ==> r.value.items == acc
    decreases |s|, 0
  {
    if s == [] then Fail
    else if s[0] == ',' then ParseItems(kind, s[1..], acc)
    else if s[0] == Close(kind) then Parsed(Doc(kind, acc), s[1..])
    else Fail
  }

  function ParseText(s: string): Option<Json> {
    match ParseValue(s)
    case Fail => None
    case Parsed(j, rest) => if rest == [] then Some(j) else None
  }

  // ---- Printing and parsing ----

  predicate NeedsNoEscape(s: string) {
    forall i :: 0 <= i < |s| ==> Plain(s[i])
  }

  /** Every string can stand between quotes as it is, and elements of arrays have no keys. */
  predicate Printable(j: Json) {
    match j
    case Num(_) => true
    case Str(s) => NeedsNoEscape(s)
    case Doc(kind, items) => ItemsPrintable(kind, items)
  }

  predicate ItemsPrintable(kind: Kind, items: Items)
    decreases items
  {
    match items
    case Empty => true
    case Items(init, key, value) =>
      ItemsPrintable(kind, init) && Printable(value) && NeedsNoEscape(key) && (kind == Array ==> key == [])
  }

  lemma {:induction false} ScansString(s: string, rest: string)
    requires NeedsNoEscape(s)
    ensures ScanString(s + [QUOTE] + rest) == Scanned(s, rest)
  {
    var t := s + [QUOTE] + rest;
    if s == [] {
      assert t == [QUOTE] + rest;
    } else {
      assert t[1..] == s[1..] + [QUOTE] + rest;
      ScansString(s[1..], rest);
    }
  }

  lemma {:induction false} LeadingDigitsAre(s: string, rest: string)
    requires AllDigits(s) && (rest != [] ==> !IsDigit(rest[0]))
    ensures LeadingDigits(s + rest) == |s|
  {
    if s == [] {
      assert s + rest == rest;
    } else {
      assert (s + rest)[1..] == s[1..] + rest;
      LeadingDigitsAre(s[1..], rest);
    }
  }

  lemma DigitCharRoundTrip(d: nat)
    requires d < 10
    ensures IsDigit(DigitChar(d)) && DigitValue(DigitChar(d)) == d
  {
  }

  lemma DigitsValueOfLast(s: string, c: char)
    requires AllDigits(s) && IsDigit(c)
    ensures AllDigits(s + [c]) && DigitsValue(s + [c]) == DigitsValue(s) * 10 + DigitValue(c)
  {
    assert (s + [c])[..|s|] == s;
  }

  lemma {:induction false} DigitsRoundTrip(n: nat)
    ensures DigitsValue(Digits(n)) == n
    ensures Digits(n)[0] == '0' ==> n == 0 && |Digits(n)| == 1
  {
    DigitCharRoundTrip(n % 10);
    if n < 10 {
      DigitsValueOfLast([], DigitChar(n));
      assert [] + [DigitChar(n)] == Digits(n);
    } else {
      hide AllDigits, DigitsValue, DigitChar, DigitValue;
      DigitsRoundTrip(n / 10);
      DigitsValueOfLast(Digits(n / 10), DigitChar(n % 10));
    }
  }

  /** What may follow a value without becoming part of it. */
  predicate EndsValue(rest: string) {
    rest != [] ==> !IsDigit(rest[0])
  }

  lemma ParsesNat(n: nat, sign: int, rest: string)
    requires EndsValue(rest)
    ensures ParseNat(Digits(n) + rest, sign) == Parsed(Num(sign * n), rest)
  {
    var d := Digits(n);
    LeadingDigitsAre(d, rest);
    DigitsRoundTrip(n);
    assert (d + rest)[..|d|] == d && (d + rest)[|d|..] == rest;
  }

  lemma ParseAfter(c: char, t: string)
    ensures c == '-' ==> ParseValue([c] + t) == ParseNat(t, -1)
    ensures c == '{' ==> ParseValue([c] + t) == ParseDoc(Object, t)
    ensures c == '[' ==> ParseValue([c] + t) == ParseDoc(Array, t)
  {
    assert ([c] + t)[1..] == t;
  }

  lemma ParseDigit(t: string)
    requires t != [] && IsDigit(t[0])
    ensures ParseValue(t) == ParseNat(t, 1)
  {
  }

  lemma ParsesNegative(n: int, rest: string)
    requires EndsValue(rest) && n < 0
    ensures ParseValue((['-'] + Digits(-n)) + rest) == Parsed(Num(n), rest)
  {
    var t := Digits(-n) + rest;
    ParsesNat(-n, -1, rest);
    ParseAfter('-', t);
    Associates(['-'], Digits(-n), rest);
  }

  lemma ParsesPositive(n: nat, rest: string)
    requires EndsValue(rest)
    ensures ParseValue(Digits(n) + rest) == Parsed(Num(n), rest)
  {
    var t := Digits(n) + rest;
    assert t[0] == Digits(n)[0];
    ParseDigit(t);
    ParsesNat(n, 1, rest);
  }

  lemma ParsesDecimal(n: int, rest: string)
    requires EndsValue(rest)
    ensures ParseValue(Decimal(n) + rest) == Parsed(Num(n), rest)
  {
    if n < 0 {
      ParsesNegative(n, rest);
    } else {
      ParsesPositive(n, rest);
    }
  }

  lemma ParsesQuoted(s: string, rest: string)
    requires NeedsNoEscape(s)
    ensures ParseValue(Quoted(s) + rest) == Parsed(Str(s), rest)
  {
    assert (Quoted(s) + rest)[1..] == s + [QUOTE] + rest;
    ScansString(s, rest);
  }

  lemma ParsesKey(kind: Kind, key: string, rest: string)
    requires NeedsNoEscape(key) && (kind == Array ==> key == [])
    ensures ParseKey(kind, KeyText(kind, key) + rest) == Scanned(key, rest)
  {
    if kind == Object {
      assert (KeyText(kind, key) + rest)[1..] == key + [QUOTE] + ([':'] + rest);
      ScansString(key, [':'] + rest);
    } else {
      assert KeyText(kind, key) + rest == rest;
    }
  }

  lemma Associates(a: string, b: string, c: string)
    ensures (a + b) + c == a + (b + c)
  {
  }

  /** The parser reads back every printable value from its text, whatever follows it. */
  lemma {:induction false} TextRoundTrip(j: Json, rest: string)
    requires Printable(j) && EndsValue(rest)
    ensures ParseValue(Text(j) + rest) == Parsed(j, rest)
    decreases j, 2
  {
    match j
    case Num(n) => ParsesDecimal(n, rest);
    case Str(s) => ParsesQuoted(s, rest);
    case Doc(kind, items) =>
      var after := ItemsText(kind, items) + ([Close(kind)] + rest);
      Associates([Open(kind)] + ItemsText(kind, items), [Close(kind)], rest);
      Associates([Open(kind)], ItemsText(kind, items), [Close(kind)] + rest);
      ParseAfter(Open(kind), after);
      DocRoundTrip(kind, items, rest);
  }

  lemma {:induction false} DocRoundTrip(kind: Kind, items: Items, rest: string)
    requires ItemsPrintable(kind, items) && EndsValue(rest)
    ensures ParseDoc(kind, ItemsText(kind, items) + ([Close(kind)] + rest)) == Parsed(Doc(kind, items), rest)
    decreases items, 2
  {
    var after := [Close(kind)] + rest;
    assert after[1..] == rest;
    if items == Empty {
      assert ItemsText(kind, items) + after == after;
    } else {
      ItemsStart(kind, items, after);
      ItemsRoundTrip(kind, items, after);
    }
  }

  /** The text of members or elements does not start with a closing mark. */
  lemma {:induction false} ItemsStart(kind: Kind, items: Items, rest: string)
    requires items != Empty
    ensures ItemsText(kind, items) != [] && (ItemsText(kind, items) + rest)[0] != Close(kind)
  {
    if items.init != Empty {
      ItemsStart(kind, items.init, rest);
    } else if kind == Array {
      TextStart(items.value);
    }
  }

  lemma TextStart(j: Json)
    ensures Text(j)[0] != '}' && Text(j)[0] != ']' && Text(j)[0] != ','
  {
    if j.Num? && j.n >= 0 {
      assert IsDigit(Digits(j.n)[0]);
    }
  }

  lemma ParseComma(kind: Kind, t: string, acc: Items)
    ensures ParseNext(kind, [','] + t, acc) == ParseItems(kind, t, acc)
  {
    assert ([','] + t)[1..] == t;
  }

  lemma Regroup(before: string, item: string, rest: string)
    ensures ((before + [',']) + item) + rest == before + ([','] + (item + rest))
  {
  }

  /** After the text of items the parser has collected items and goes on with what follows. */
  lemma {:induction false} ItemsRoundTrip(kind: Kind, items: Items, rest: string)
    requires items != Empty && ItemsPrintable(kind, items) && EndsValue(rest)
    ensures ParseItems(kind, ItemsText(kind, items) + rest, Empty) == ParseNext(kind, rest, items)
    decreases items, 1
  {
    var item := KeyText(kind, items.key) + Text(items.value);
    ItemRoundTrip(kind, items, rest);
    if items.init == Empty {
      assert ItemsText(kind, items) == item;
    } else {
      var after := item + rest;
      Regroup(ItemsText(kind, items.init), item, rest);
      ItemsRoundTrip(kind, items.init, [','] + after);
      ParseComma(kind, after, items.init);
    }
  }

  lemma {:induction false} ItemRoundTrip(kind: Kind, items: Items, rest: string)
    requires items != Empty && ItemsPrintable(kind, items) && EndsValue(rest)
    ensures ParseItems(kind, KeyText(kind, items.key) + Text(items.value) + rest, items.init) ==
            ParseNext(kind, rest, items)
    decreases items, 0
  {
    hide KeyText, Text, ParseKey, ParseValue;
    var value := Text(items.value) + rest;
    Associates(KeyText(kind, items.key), Text(items.value), rest);
    ParsesKey(kind, items.key, value);
    TextRoundTrip(items.value, rest);
  }

  // ---- Packing ----

  /** A packed value: an integer, a string, or the null pointer where a string is expected. */
  datatype Value = IntV(n: int) | StrV(s: string) | NullV

  /** A key that starts with a bracket adds to an array and is not printed. */
  function KindOf(key: string): Kind {
    if key != [] && key[0] == '[' then Array else Object
  }

  /** A string that looks like an object or an array is printed as it is. */
  predicate IsRaw(s: string) {
    s != [] && (s[0] == '{' || s[0] == '[')
  }

  function ValueText(v: Value): string {
    match v
    case IntV(n) => Decimal(n)
    case StrV(s) => if IsRaw(s) then s else Quoted(s)
    case NullV => []
  }

  /** What a call keeps of the text: everything but the closing mark, or nothing of the other kind. */
  function Opening(prev: string, kind: Kind): string {
    if prev != [] && prev[0] == Open(kind) then prev[..|prev| - 1] + [','] else [Open(kind)]
  }

  /** The text after one call; prev is empty before the first. */
  function PackText(prev: string, key: string, v: Value): string {
    var kind := KindOf(key);
    Opening(prev, kind) + KeyText(kind, key) + ValueText(v) + [Close(kind)]
  }

  /** What a value means: an integer, a string, or a document printed before. */
  predicate Denotes(v: Value, j: Json) {
    Printable(j) &&
    match j
    case Num(n) => v == IntV(n)
    case Str(s) => v == StrV(s) && !IsRaw(s)
    case Doc(_, _) => v == StrV(Text(j))
  }

  function ItemKey(key: string): string {
    if KindOf(key) == Array then [] else key
  }

  /** The document after one call: one more item behind those of its own kind. */
  function PackJson(doc: Option<Json>, key: string, j: Json): (d: Json)
    ensures d.Doc? && d.kind == KindOf(key) && d.items != Empty
  {
    var kind := KindOf(key);
    var before := if doc.Some? && doc.value.Doc? && doc.value.kind == kind then doc.value.items else Empty;
    Doc(kind, Items(before, ItemKey(key), j))
  }

  function TextOf(doc: Option<Json>): string {
    if doc.Some? then Text(doc.value) else []
  }

  lemma TextFirst(j: Json)
    ensures var c := Text(j)[0];
            match j
            case Num(_) => c == '-' || IsDigit(c)
            case Str(_) => c == QUOTE
            case Doc(kind, _) => c == Open(kind)
  {
    if j.Num? {
      assert IsDigit(Digits(if j.n < 0 then -j.n else j.n)[0]);
    }
  }

  lemma ItemText(key: string, v: Value, j: Json)
    requires Denotes(v, j)
    ensures ValueText(v) == Text(j) && KeyText(KindOf(key), key) == KeyText(KindOf(key), ItemKey(key))
  {
    TextFirst(j);
  }

  lemma PackedBehind(items: Items, key: string, v: Value, j: Json)
    requires Denotes(v, j) && items != Empty
    ensures var kind := KindOf(key);
            PackText(Text(Doc(kind, items)), key, v) == Text(Doc(kind, Items(items, ItemKey(key), j)))
  {
    var kind := KindOf(key);
    var t := Text(Doc(kind, items));
    assert t[..|t| - 1] == [Open(kind)] + ItemsText(kind, items);
    ItemText(key, v, j);
    assert ItemsText(kind, Items(items, ItemKey(key), j)) ==
           ItemsText(kind, items) + [','] + (KeyText(kind, key) + ValueText(v));
    Reopens(kind, ItemsText(kind, items), KeyText(kind, key), ValueText(v));
  }

  lemma PackedFirst(prev: string, key: string, v: Value, j: Json)
    requires Denotes(v, j) && (prev != [] ==> prev[0] != Open(KindOf(key)))
    ensures var kind := KindOf(key);
            PackText(prev, key, v) == Text(Doc(kind, Items(Empty, ItemKey(key), j)))
  {
    var kind := KindOf(key);
    ItemText(key, v, j);
    assert ItemsText(kind, Items(Empty, ItemKey(key), j)) == [] + (KeyText(kind, key) + ValueText(v));
    Opens(kind, KeyText(kind, key), ValueText(v));
  }

  /** The text of a document that is not an empty one of the same kind grows into the text of the
      document with the item added. */
  lemma PackedText(doc: Option<Json>, key: string, v: Value, j: Json)
    requires Denotes(v, j) && (doc.Some? ==> doc.value != Doc(KindOf(key), Empty))
    ensures PackText(TextOf(doc), key, v) == Text(PackJson(doc, key, j))
  {
    if doc.Some? {
      TextFirst(doc.value);
    }
    if doc.Some? && doc.value.Doc? && doc.value.kind == KindOf(key) {
      PackedBehind(doc.value.items, key, v, j);
    } else {
      PackedFirst(TextOf(doc), key, v, j);
    }
  }

  lemma Reopens(kind: Kind, items: string, key: string, value: string)
    ensures ([Open(kind)] + items) + [','] + key + value + [Close(kind)] ==
            [Open(kind)] + (items + [','] + (key + value)) + [Close(kind)]
  {
  }

  lemma Opens(kind: Kind, key: string, value: string)
    ensures [Open(kind)] + key + value + [Close(kind)] == [Open(kind)] + ([] + (key + value)) + [Close(kind)]
  {
  }

  // ---- Runs of calls ----

  datatype Call = Call(key: string, value: Value, meaning: Json)

  predicate Sound(c: Call) {
    Denotes(c.value, c.meaning) && (KindOf(c.key) == Object ==> NeedsNoEscape(c.key))
  }

  /** The text after a run of calls that starts from a null pointer. */
  function RunText(calls: seq<Call>): string {
    if calls == [] then []
    else
      var last := calls[|calls| - 1];
      PackText(RunText(calls[..|calls| - 1]), last.key, last.value)
  }

  /** The items of a run of calls, in order. */
  function ItemsOf(calls: seq<Call>): Items {
    if calls == [] then Empty
    else
      var last := calls[|calls| - 1];
      Items(ItemsOf(calls[..|calls| - 1]), ItemKey(last.key), last.meaning)
  }

  predicate AllOfKind(calls: seq<Call>, kind: Kind) {
    forall c :: c in calls ==> KindOf(c.key) == kind
  }

  function RunJson(calls: seq<Call>): (doc: Option<Json>)
    ensures calls != [] ==> doc.Some? && doc.value.Doc? && doc.value.items != Empty
  {
    if calls == [] then None
    else
      var last := calls[|calls| - 1];
      Some(PackJson(RunJson(calls[..|calls| - 1]), last.key, last.meaning))
  }

  lemma {:induction false} RunPrints(calls: seq<Call>)
    requires forall c :: c in calls ==> Sound(c)
    ensures RunText(calls) == TextOf(RunJson(calls))
    ensures calls != [] ==> Printable(RunJson(calls).value)
  {
    if calls == [] {
    } else {
      var before, last := calls[..|calls| - 1], calls[|calls| - 1];
      assert last in calls;
      RunPrints(before);
      PackedText(RunJson(before), last.key, last.value, last.meaning);
      PackPrintable(RunJson(before), last.key, last.meaning);
    }
  }

  lemma PackPrintable(doc: Option<Json>, key: string, j: Json)
    requires Printable(j) && (KindOf(key) == Object ==> NeedsNoEscape(key))
    requires doc.Some? ==> Printable(doc.value)
    ensures Printable(PackJson(doc, key, j))
  {
  }

  lemma ParsesBack(j: Json)
    requires Printable(j)
    ensures ParseText(Text(j)) == Some(j)
  {
    TextRoundTrip(j, []);
    assert Text(j) + [] == Text(j);
  }

  lemma RunAdds(calls: seq<Call>, c: Call)
    ensures RunJson(calls + [c]) == Some(PackJson(RunJson(calls), c.key, c.meaning))
    ensures ItemsOf(calls + [c]) == Items(ItemsOf(calls), ItemKey(c.key), c.meaning)
  {
    assert (calls + [c])[..|calls|] == calls;
  }

  lemma SplitLast(before: seq<Call>, calls: seq<Call>)
    requires calls != []
    ensures var init, c := calls[..|calls| - 1], calls[|calls| - 1];
            c in calls && calls == init + [c] && before + calls == (before + init) + [c]
  {
  }

  /** Calls of one kind add to what calls of the other kind have left, which is overwritten. */
  lemma {:induction false} RunAppends(before: seq<Call>, calls: seq<Call>, kind: Kind)
    requires AllOfKind(calls, kind) && calls != []
    requires before != [] ==> KindOf(before[|before| - 1].key) != kind
    ensures RunJson(before + calls) == Some(Doc(kind, ItemsOf(calls)))
    decreases |calls|
  {
    hide RunJson;
    var init, c := calls[..|calls| - 1], calls[|calls| - 1];
    SplitLast(before, calls);
    RunAdds(before + init, c);
    RunAdds(init, c);
    if init == [] {
      assert before + init == before;
      OtherKind(before, kind);
    } else {
      RunAppends(before, init, kind);
    }
  }

  lemma OtherKind(before: seq<Call>, kind: Kind)
    requires before != [] ==> KindOf(before[|before| - 1].key) != kind
    ensures RunJson(before).None? || RunJson(before).value.kind != kind
  {
  }

  /** Any run of packs from a null pointer gives a text that parses to exactly the packed members, in
      order, those since the last call of the other kind. */
  lemma RunParses(before: seq<Call>, calls: seq<Call>, kind: Kind)
    requires forall c :: c in before + calls ==> Sound(c)
    requires AllOfKind(calls, kind) && calls != []
    requires before != [] ==> KindOf(before[|before| - 1].key) != kind
    ensures ParseText(RunText(before + calls)) == Some(Doc(kind, ItemsOf(calls)))
  {
    RunPrints(before + calls);
    RunAppends(before, calls, kind);
    ParsesBack(RunJson(before + calls).value);
  }

  /** Packing onto the text of any printable value works exactly unless it is an empty object or array of
      the same kind, whose opening mark would be followed by a comma. */
  lemma PackParsesIffNotEmpty(doc: Json, c: Call)
    requires Printable(doc) && Sound(c)
    ensures ParseText(PackText(Text(doc), c.key, c.value)) == Some(PackJson(Some(doc), c.key, c.meaning)) <==>
            doc != Doc(KindOf(c.key), Empty)
  {
    if doc == Doc(KindOf(c.key), Empty) {
      CommaFirst(KindOf(c.key), KeyText(KindOf(c.key), c.key) + ValueText(c.value) + [Close(KindOf(c.key))]);
      AfterEmpty(c);
    } else {
      PackedText(Some(doc), c.key, c.value, c.meaning);
      PackPrintable(Some(doc), c.key, c.meaning);
      ParsesBack(PackJson(Some(doc), c.key, c.meaning));
    }
  }

  /** A pack makes an array exactly when its key starts with a bracket: the text starts with one, and parses to
      an array of elements without keys; otherwise to an object whose last member has the key. */
  lemma BracketMakesArray(prev: string, c: Call)
    requires Sound(c) && |prev| != 1
    ensures PackText(prev, c.key, c.value)[0] == '[' <==> "[" <= c.key
    ensures PackText(prev, c.key, c.value)[0] == '{' <==> !("[" <= c.key)
    ensures var d := ParseText(PackText([], c.key, c.value));
            d == Some(if "[" <= c.key then Doc(Array, Items(Empty, [], c.meaning))
                      else Doc(Object, Items(Empty, c.key, c.meaning)))
  {
    assert Opening(prev, KindOf(c.key))[0] == Open(KindOf(c.key));
    PackedText(None, c.key, c.value, c.meaning);
    PackPrintable(None, c.key, c.meaning);
    ParsesBack(PackJson(None, c.key, c.meaning));
  }

  /** A string that needs no escapes is read back as itself exactly when it does not look like an object or
      an array, because such a string is printed as it is. */
  lemma StringReadBackIffNotRaw(key: string, s: string)
    requires NeedsNoEscape(s) && (KindOf(key) == Object ==> NeedsNoEscape(key))
    ensures ParseText(PackText([], key, StrV(s))) == Some(PackJson(None, key, Str(s))) <==> !IsRaw(s)
  {
    if IsRaw(s) {
      RawIsNoString(key, s);
    } else {
      PackedText(None, key, StrV(s), Str(s));
      PackPrintable(None, key, Str(s));
      ParsesBack(PackJson(None, key, Str(s)));
    }
  }

  lemma RawIsNoString(key: string, s: string)
    requires IsRaw(s) && (KindOf(key) == Object ==> NeedsNoEscape(key))
    ensures ParseText(PackText([], key, StrV(s))) != Some(PackJson(None, key, Str(s)))
  {
    var kind := KindOf(key);
    var value := s + [Close(kind)];
    var t := KeyText(kind, key) + value;
    Associates([Open(kind)] + KeyText(kind, key), s, [Close(kind)]);
    Associates([Open(kind)], KeyText(kind, key), value);
    assert PackText([], key, StrV(s)) == [Open(kind)] + t;
    ParseAfter(Open(kind), t);
    ParsesKey(kind, ItemKey(key), value);
    assert KeyText(kind, key) == KeyText(kind, ItemKey(key));
    RawParsesAsDoc(value);
    assert t[0] != Close(kind);
    var r := ParseItems(kind, t, Empty);
    if r.Parsed? {
      var v := ParseValue(value);
      assert r == ParseNext(kind, v.rest, Items(Empty, ItemKey(key), v.value));
      assert r.value.items != Items(Empty, ItemKey(key), Str(s));
    }
  }

  lemma RawParsesAsDoc(t: string)
    requires IsRaw(t)
    ensures ParseValue(t).Parsed? ==> ParseValue(t).value.Doc?
  {
  }

  lemma AfterEmpty(c: Call)
    ensures var kind := KindOf(c.key);
            PackText(Text(Doc(kind, Empty)), c.key, c.value) ==
            [Open(kind)] + ([','] + (KeyText(kind, c.key) + ValueText(c.value) + [Close(kind)]))
  {
    var t := Text(Doc(KindOf(c.key), Empty));
    assert t[..|t| - 1] == [Open(KindOf(c.key))];
  }

  lemma CommaFirst(kind: Kind, rest: string)
    ensures ParseText([Open(kind)] + ([','] + rest)) == None
  {
    var t := [','] + rest;
    ParseAfter(Open(kind), t);
    assert LeadingDigits(t) == 0;
    assert ParseValue(t) == Fail;
    assert ParseItems(kind, t, Empty) == Fail;
  }

  // ---- The buffer ----

  const NUL := '\0'

  /** A C string. */
  predicate NoNul(s: string) {
    forall i :: 0 <= i < |s| ==> s[i] != NUL
  }

  const INT_MIN := -0x8000_0000
  const INT_MAX := 0x7FFF_FFFF

  predicate IsArgument(key: string, v: Value) {
    NoNul(key) && (v.IntV? ==> INT_MIN <= v.n <= INT_MAX) && (v.StrV? ==> NoNul(v.s))
  }

  function Power10(k: nat): nat {
    if k == 0 then 1 else 10 * Power10(k - 1)
  }

  lemma {:induction false} DigitsLength(n: nat, k: nat)
    requires 1 <= k && n < Power10(k)
    ensures |Digits(n)| <= k
  {
    if n < 10 {
    } else {
      DigitsLength(n / 10, k - 1);
    }
  }

  /** What is reserved for a value. */
  function Reserved(v: Value): nat {
    if v.StrV? then |v.s| else 10
  }

  /** The room reserved for a call is enough for what it prints; a decimal may take one character more. */
  lemma ValueFits(v: Value)
    requires v.IntV? ==> INT_MIN <= v.n <= INT_MAX
    ensures |ValueText(v)| <= Reserved(v) + 2
  {
    if v.IntV? {
      assert Power10(10) == 10000000000 by {
        assert Power10(5) == 100000;
      }
      DigitsLength(if v.n < 0 then -v.n else v.n, 10);
    }
  }

  lemma ValueHasNoNul(v: Value)
    requires v.StrV? ==> NoNul(v.s)
    ensures NoNul(ValueText(v))
  {
    if v.IntV? {
      assert AllDigits(Digits(if v.n < 0 then -v.n else v.n));
    }
  }

  lemma OpeningHasNoNul(prev: string, kind: Kind)
    requires NoNul(prev)
    ensures NoNul(Opening(prev, kind))
  {
  }

  lemma KeyHasNoNul(kind: Kind, key: string)
    requires NoNul(key)
    ensures NoNul(KeyText(kind, key))
  {
  }

  lemma JoinHasNoNul(a: string, b: string)
    requires NoNul(a) && NoNul(b)
    ensures NoNul(a + b)
  {
  }

  lemma PackHasNoNul(prev: string, key: string, v: Value)
    requires NoNul(prev) && IsArgument(key, v)
    ensures NoNul(PackText(prev, key, v))
  {
    hide Opening, KeyText, ValueText, NoNul;
    var kind := KindOf(key);
    OpeningHasNoNul(prev, kind);
    KeyHasNoNul(kind, key);
    ValueHasNoNul(v);
    CloseHasNoNul(kind);
    JoinHasNoNul(Opening(prev, kind), KeyText(kind, key));
    JoinHasNoNul(Opening(prev, kind) + KeyText(kind, key), ValueText(v));
    JoinHasNoNul(Opening(prev, kind) + KeyText(kind, key) + ValueText(v), [Close(kind)]);
  }

  lemma CloseHasNoNul(kind: Kind)
    ensures NoNul([Close(kind)])
  {
  }

  /** mlink_json_pack on a pointer: the string it points to is reallocated for every call. */
  class JsonText {
    var buffer: array?<char>
    ghost var text: string

    ghost predicate Valid()
      reads this, buffer
    {
      if buffer == null then text == []
      else |text| < buffer.Length && buffer[..|text|] == text && buffer[|text|] == NUL && NoNul(text)
    }

    constructor ()
      ensures Valid() && buffer == null && text == []
    {
      buffer, text := null, [];
    }

    /** strlen. */
    method Strlen() returns (n: nat)
      requires Valid() && buffer != null
      ensures n == |text|
    {
      n := 0;
      while buffer[n] != NUL
        invariant n <= |text|
        decreases |text| - n
      {
        n := n + 1;
      }
    }

    /** Make room for one more item; a first buffer is all zero. */
    method Grow(room: nat)
      requires Valid() && room > 0
      modifies this`buffer
      ensures Valid() && buffer != null && fresh(buffer) && buffer.Length == room + |text|
    {
      if buffer == null {
        buffer := new char[room](_ => NUL);
      } else {
        var n := Strlen();
        var prev: array<char> := buffer;
        buffer := new char[room + n](i reads prev => if 0 <= i < n && i < prev.Length then prev[i] else NUL);
        assert buffer[..n] == prev[..n];
      }
    }

    /** sprintf at an offset. */
    method Print(at: nat, s: string)
      requires buffer != null && at + |s| < buffer.Length
      modifies buffer
      ensures buffer[..at + |s|] == old(buffer[..at]) + s && buffer[at + |s|] == NUL
    {
      forall i | 0 <= i < |s| {
        buffer[at + i] := s[i];
      }
      buffer[at + |s|] := NUL;
      assert buffer[..at + |s|] == buffer[..at] + buffer[at..at + |s|];
    }

    /** The opening mark, or a comma instead of the closing one; at is where the item goes. */
    method Begin(kind: Kind) returns (at: nat)
      requires Valid() && buffer != null && |text| + 1 < buffer.Length
      modifies buffer
      ensures at <= |text| + 1 && buffer[..at] == Opening(text, kind)
    {
      assert text != [] ==> buffer[0] == text[0];
      at := 0;
      if buffer[0] == Open(kind) {
        var n := Strlen();
        at := n - 1;
        buffer[at] := ',';
      } else {
        buffer[at] := Open(kind);
      }
      at := at + 1;
    }

    /** Key, value and closing mark; size is the length of the text they end. */
    method AddItem(kind: Kind, key: string, v: Value, at: nat) returns (size: nat)
      requires buffer != null && at + |KeyText(kind, key)| + |ValueText(v)| + 1 < buffer.Length
      modifies buffer
      ensures size < buffer.Length && buffer[size] == NUL
      ensures buffer[..size] == old(buffer[..at]) + KeyText(kind, key) + ValueText(v) + [Close(kind)]
    {
      size := at;
      if kind == Object {
        Print(size, KeyText(kind, key));
        size := size + |KeyText(kind, key)|;
      }
      assert buffer[..size] == old(buffer[..at]) + KeyText(kind, key);
      Print(size, ValueText(v));
      size := size + |ValueText(v)|;
      ghost var before := buffer[..size];
      buffer[size] := Close(kind);
      size := size + 1;
      buffer[size] := NUL;
      assert buffer[..size] == before + [Close(kind)];
    }

    /** __mlink_json_pack: None for a null string, else the length of the text. */
    method Pack(key: string, v: Value) returns (index: Option<nat>)
      requires Valid() && IsArgument(key, v)
      modifies this
      ensures Valid()
      ensures v.NullV? ==> index == None && text == old(text) && buffer == old(buffer)
      ensures !v.NullV? ==> text == PackText(old(text), key, v) && index == Some(|text|) && fresh(buffer)
    {
      if v.NullV? {
        return None;
      }
      Grow(Reserved(v) + |key| + 16);
      ValueFits(v);
      var at := Begin(KindOf(key));
      var size := AddItem(KindOf(key), key, v, at);
      PackHasNoNul(text, key, v);
      text := PackText(text, key, v);
      index := Some(size);
    }
  }
}
