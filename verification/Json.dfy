/** JSON values with integer numbers, their compact text, and a reader for that text. */
module Json {
  import opened Wrappers

  datatype Value =
    | Null
    | Bool(b: bool)
    | Num(n: int)
    | Str(s: string)
    | Arr(items: seq<Value>)
    | Obj(entries: seq<Entry>)

  datatype Entry = Entry(key: string, value: Value)

  // ----- text

  const DECIMALS := "0123456789"
  const HEXADECIMALS := "0123456789abcdef"

  function Digits(n: nat): string {
    if n < 10 then [DECIMALS[n]] else Digits(n / 10) + [DECIMALS[n % 10]]
  }

  function Decimal(n: int): string { if n < 0 then "-" + Digits(-n) else Digits(n) }

  /** Only characters below U+0010 are written by number. */
  function Escape(c: char): string {
    if c == '"' then "\\\""
    else if c == '\\' then "\\\\"
    else if c == '\U{8}' then "\\b"
    else if c == '\U{c}' then "\\f"
    else if c == '\n' then "\\n"
    else if c == '\r' then "\\r"
    else if c == '\t' then "\\t"
    else if c < '\U{10}' then "\\u000" + [HEXADECIMALS[c as int]]
    else [c]
  }

  function EscapeAll(s: string): string {
    if s == [] then [] else Escape(s[0]) + EscapeAll(s[1..])
  }

  function Quote(s: string): string { "\"" + EscapeAll(s) + "\"" }

  function Join(texts: seq<string>): string {
    if texts == [] then ""
    else if |texts| == 1 then texts[0]
    else texts[0] + "," + Join(texts[1..])
  }

  /** Entries in the order they stand. */
  function Write(v: Value): string {
    match v
    case Null => "null"
    case Bool(b) => if b then "true" else "false"
    case Num(n) => Decimal(n)
    case Str(s) => Quote(s)
    case Arr(items) => "[" + Join(seq(|items|, i requires 0 <= i < |items| => Write(items[i]))) + "]"
    case Obj(es) =>
      "{" + Join(seq(|es|, i requires 0 <= i < |es| => Quote(es[i].key) + ":" + Write(es[i].value))) + "}"
  }

  function ItemTexts(items: seq<Value>): seq<string> {
    seq(|items|, i requires 0 <= i < |items| => Write(items[i]))
  }

  function EntryText(e: Entry): string { Quote(e.key) + ":" + Write(e.value) }

  function EntryTexts(es: seq<Entry>): seq<string> {
    seq(|es|, i requires 0 <= i < |es| => EntryText(es[i]))
  }

  lemma WriteArray(items: seq<Value>)
    ensures Write(Arr(items)) == "[" + Join(ItemTexts(items)) + "]"
  {
    assert ItemTexts(items) == seq(|items|, i requires 0 <= i < |items| => Write(items[i]));
  }

  lemma WriteObject(es: seq<Entry>)
    ensures Write(Obj(es)) == "{" + Join(EntryTexts(es)) + "}"
  {
    assert EntryTexts(es) == seq(|es|, i requires 0 <= i < |es| => Quote(es[i].key) + ":" + Write(es[i].value));
  }

  // ----- the reader

  datatype Parsed<+T> = Parsed(value: T, rest: string)

  predicate IsDigit(c: char) { '0' <= c <= '9' }

  function ParseDigits(s: string, value: nat): (r: Parsed<nat>)
    ensures |r.rest| <= |s|
    decreases |s|
  {
    if s != [] && IsDigit(s[0]) then ParseDigits(s[1..], 10 * value + (s[0] as int - '0' as int)) else Parsed(value, s)
  }

  function ParseNumber(s: string): (r: Option<Parsed<int>>)
    ensures r.Some? ==> |r.value.rest| < |s|
  {
    if |s| > 1 && s[0] == '-' && IsDigit(s[1]) then
      var p := ParseDigits(s[1..], 0);
      var n: int := -(p.value as int);
      Some(Parsed(n, p.rest))
    else if |s| > 0 && IsDigit(s[0]) then
      var p := ParseDigits(s[1..], s[0] as int - '0' as int);
      var n: int := p.value;
      Some(Parsed(n, p.rest))
    else None
  }

  function HexValue(c: char): (n: nat)
    ensures n < 16
  {
    if '0' <= c <= '9' then c as int - '0' as int
    else if 'a' <= c <= 'f' then c as int - 'a' as int + 10
    else 0
  }

  predicate IsHexDigit(c: char) { '0' <= c <= '9' || 'a' <= c <= 'f' }

  /** One character of a quoted string: those below U+0010 only by an escape. */
  function ReadChar(s: string): (r: Option<Parsed<char>>)
    ensures r.Some? ==> |r.value.rest| < |s|
  {
    if s == [] then None
    else if s[0] < '\U{10}' then None
    else if s[0] != '\\' then Some(Parsed(s[0], s[1..]))
    else if |s| == 1 then None
    else if s[1] == '"' || s[1] == '\\' then Some(Parsed(s[1], s[2..]))
    else if s[1] == 'b' then Some(Parsed('\U{8}', s[2..]))
    else if s[1] == 'f' then Some(Parsed('\U{c}', s[2..]))
    else if s[1] == 'n' then Some(Parsed('\n', s[2..]))
    else if s[1] == 'r' then Some(Parsed('\r', s[2..]))
    else if s[1] == 't' then Some(Parsed('\t', s[2..]))
    else if s[1] == 'u' && |s| >= 6 && s[2] == s[3] == s[4] == '0' && IsHexDigit(s[5])
    then Some(Parsed(HexValue(s[5]) as char, s[6..]))
    else None
  }

  /** The rest of a quoted string, after its opening quote. */
  function ParseString(s: string): (r: Option<Parsed<string>>)
    ensures r.Some? ==> |r.value.rest| < |s|
    decreases |s|
  {
    if s == [] then None
    else if s[0] == '"' then Some(Parsed("", s[1..]))
    else
      match ReadChar(s)
      case None => None
      case Some(c) =>
        match ParseString(c.rest)
        case None => None
        case Some(p) => Some(Parsed([c.value] + p.value, p.rest))
  }

  function Word(word: string, v: Value, s: string): (r: Option<Parsed<Value>>)
    requires word != []
    ensures r.Some? ==> |r.value.rest| < |s|
  {
    if word <= s then Some(Parsed(v, s[|word|..])) else None
  }

  function ParseValue(s: string): (r: Option<Parsed<Value>>)
    ensures r.Some? ==> |r.value.rest| < |s|
    decreases |s|, 0
  {
    if s == [] then None
    else if s[0] == 'n' then Word("null", Null, s)
    else if s[0] == 't' then Word("true", Bool(true), s)
    else if s[0] == 'f' then Word("false", Bool(false), s)
    else if s[0] == '"' then
      match ParseString(s[1..])
      case None => None
      case Some(p) => Some(Parsed(Str(p.value), p.rest))
    else if s[0] == '[' then
      if |s| > 1 && s[1] == ']' then Some(Parsed(Arr([]), s[2..]))
      else
        match ParseItems(s[1..])
        case None => None
        case Some(p) => Some(Parsed(Arr(p.value), p.rest))
    else if s[0] == '{' then
      if |s| > 1 && s[1] == '}' then Some(Parsed(Obj([]), s[2..]))
      else
        match ParseEntries(s[1..])
        case None => None
        case Some(p) => Some(Parsed(Obj(p.value), p.rest))
    else
      match ParseNumber(s)
      case None => None
      case Some(p) => Some(Parsed(Num(p.value), p.rest))
  }

  /** At least one item, up to the closing bracket. */
  function ParseItems(s: string): (r: Option<Parsed<seq<Value>>>)
    ensures r.Some? ==> |r.value.rest| < |s|
    decreases |s|, 1
  {
    match ParseValue(s)
    case None => None
    case Some(v) =>
      if v.rest != [] && v.rest[0] == ']' then Some(Parsed([v.value], v.rest[1..]))
      else if v.rest != [] && v.rest[0] == ',' then
        match ParseItems(v.rest[1..])
        case None => None
        case Some(p) => Some(Parsed([v.value] + p.value, p.rest))
      else None
  }

  function ParseEntry(s: string): (r: Option<Parsed<Entry>>)
    ensures r.Some? ==> |r.value.rest| < |s|
    decreases |s|, 1
  {
    if (s == [] || s[0] != '"') then None
    else
      match ParseString(s[1..])
      case None => None
      case Some(k) =>
        if (k.rest == [] || k.rest[0] != ':') then None
        else
          match ParseValue(k.rest[1..])
          case None => None
          case Some(v) => Some(Parsed(Entry(k.value, v.value), v.rest))
  }

  function ParseEntries(s: string): (r: Option<Parsed<seq<Entry>>>)
    ensures r.Some? ==> |r.value.rest| < |s|
    decreases |s|, 2
  {
    match ParseEntry(s)
    case None => None
    case Some(e) =>
      if e.rest != [] && e.rest[0] == '}' then Some(Parsed([e.value], e.rest[1..]))
      else if e.rest != [] && e.rest[0] == ',' then
        match ParseEntries(e.rest[1..])
        case None => None
        case Some(p) => Some(Parsed([e.value] + p.value, p.rest))
      else None
  }

  // ----- reading what was written

  lemma {:induction false} DigitsParse(n: nat, rest: string)
    ensures ParseDigits(Digits(n) + rest, 0) == ParseDigits(rest, n)
    decreases n
  {
    var d := DECIMALS[n % 10];
    assert IsDigit(d) && d as int - '0' as int == n % 10;
    assert ([d] + rest)[1..] == rest;
    if n >= 10 {
      DigitsParse(n / 10, [d] + rest);
      assert Digits(n) + rest == Digits(n / 10) + ([d] + rest);
      assert 10 * (n / 10) + n % 10 == n;
    }
  }

  lemma {:induction false} DigitsFirst(n: nat)
    ensures Digits(n) != [] && IsDigit(Digits(n)[0])
  {
    if n >= 10 { DigitsFirst(n / 10); }
  }

  /** Text that does not go on a number. */
  predicate Ends(rest: string) { rest == [] || !IsDigit(rest[0]) }

  lemma NumberParse(n: int, rest: string)
    requires Ends(rest)
    ensures ParseNumber(Decimal(n) + rest) == Some(Parsed(n, rest))
  {
    hide Digits;
    var m: nat := if n < 0 then -n else n;
    var digits := Digits(m) + rest;
    DigitsFirst(m);
    DigitsParse(m, rest);
    if n < 0 {
      assert (Decimal(n) + rest)[1..] == digits;
    } else {
      assert Decimal(n) + rest == digits;
      assert ParseDigits(digits, 0) == ParseDigits(digits[1..], digits[0] as int - '0' as int);
    }
  }

  lemma EscapeRead(c: char, rest: string)
    ensures Escape(c)[0] != '"'
    ensures ReadChar(Escape(c) + rest) == Some(Parsed(c, rest))
  {
    var s := Escape(c) + rest;
    assert s[|Escape(c)|..] == rest;
    if c < '\U{10}' {
      HexRead(c as int);
    }
  }

  lemma HexRead(n: nat)
    requires n < 16
    ensures HexValue(HEXADECIMALS[n]) == n
  {
  }

  lemma {:induction false} StringParse(s: string, rest: string)
    ensures ParseString(EscapeAll(s) + "\"" + rest) == Some(Parsed(s, rest))
  {
    hide Escape, ReadChar;
    if s != [] {
      var tail := EscapeAll(s[1..]) + "\"" + rest;
      EscapeRead(s[0], tail);
      StringParse(s[1..], rest);
      assert EscapeAll(s) + "\"" + rest == Escape(s[0]) + tail;
      assert s == [s[0]] + s[1..];
    } else {
      assert EscapeAll(s) + "\"" + rest == "\"" + rest;
    }
  }

  /** What follows the text of entry i in a list closed by a bracket. */
  function Tail(texts: seq<string>, i: nat, close: string, rest: string): string
    requires i < |texts|
  {
    if i + 1 == |texts| then close + rest else "," + (Join(texts[i + 1..]) + close + rest)
  }

  lemma JoinFrom(texts: seq<string>, i: nat, close: string, rest: string)
    requires i < |texts|
    ensures Join(texts[i..]) + close + rest == texts[i] + Tail(texts, i, close, rest)
  {
    assert texts[i..][1..] == texts[i + 1..];
  }

  lemma WordParse(word: string, v: Value, rest: string)
    requires word != []
    ensures Word(word, v, word + rest) == Some(Parsed(v, rest))
  {
    assert (word + rest)[|word|..] == rest;
  }

  /** The reader recovers every value from its text, whatever follows. */
  lemma {:induction false} ParseWrite(v: Value, rest: string)
    requires Ends(rest)
    ensures ParseValue(Write(v) + rest) == Some(Parsed(v, rest))
    decreases v
  {
    hide Digits, EscapeAll, Join, ParseString, ParseNumber, ParseItems, ParseEntries;
    match v
    case Null => WordParse("null", v, rest);
    case Bool(b) => WordParse(if b then "true" else "false", v, rest);
    case Num(n) =>
      NumberParse(n, rest);
      DigitsFirst(if n < 0 then -n else n);
    case Str(s) =>
      StringParse(s, rest);
      var text := Write(v) + rest;
      assert text[0] == '"' && text[1..] == EscapeAll(s) + "\"" + rest;
    case Arr(items) => ArrayParse(v, rest);
    case Obj(es) => ObjectParse(v, rest);
  }

  lemma {:induction false} ArrayParse(v: Value, rest: string)
    requires v.Arr? && Ends(rest)
    ensures ParseValue(Write(v) + rest) == Some(Parsed(v, rest))
    decreases v, |v.items| + 1
  {
    hide Join, ParseItems, Write;
    var texts := ItemTexts(v.items);
    WriteArray(v.items);
    var s := Write(v) + rest;
    assert s[0] == '[';
    if v.items == [] {
      JoinNothing(texts);
      assert s == "[]" + rest && s[2..] == rest;
    } else {
      ItemsParse(v, 0, rest);
      assert texts[0..] == texts && v.items[0..] == v.items;
      assert s[1..] == Join(texts) + "]" + rest;
      JoinFrom(texts, 0, "]", rest);
      WriteFirst(v.items[0]);
    }
  }

  lemma JoinNothing(texts: seq<string>)
    requires texts == []
    ensures Join(texts) == ""
  {
  }

  lemma WriteFirst(v: Value)
    ensures Write(v) != [] && Write(v)[0] != ']'
  {
    hide Digits, EscapeAll, Join;
    if v.Num? { DigitsFirst(if v.n < 0 then -v.n else v.n); }
  }

  lemma {:induction false} ItemsParse(v: Value, i: nat, rest: string)
    requires v.Arr? && i < |v.items|
    ensures ParseItems(Join(ItemTexts(v.items)[i..]) + "]" + rest) == Some(Parsed(v.items[i..], rest))
    decreases v, |v.items| - i
  {
    hide Join, ParseValue, Write;
    var texts := ItemTexts(v.items);
    var tail := Tail(texts, i, "]", rest);
    JoinFrom(texts, i, "]", rest);
    ParseWrite(v.items[i], tail);
    assert v.items[i..] == [v.items[i]] + v.items[i + 1..];
    if i + 1 < |v.items| {
      ItemsParse(v, i + 1, rest);
      assert tail[1..] == Join(texts[i + 1..]) + "]" + rest;
    } else {
      assert tail[1..] == rest;
      assert v.items[i..] == [v.items[i]];
    }
  }

  lemma {:induction false} ObjectParse(v: Value, rest: string)
    requires v.Obj? && Ends(rest)
    ensures ParseValue(Write(v) + rest) == Some(Parsed(v, rest))
    decreases v, |v.entries| + 1
  {
    hide Join, ParseEntries, Write, EscapeAll;
    var texts := EntryTexts(v.entries);
    WriteObject(v.entries);
    var s := Write(v) + rest;
    assert s[0] == '{';
    if v.entries == [] {
      JoinNothing(texts);
      assert s == "{}" + rest && s[2..] == rest;
    } else {
      EntriesParse(v, 0, rest);
      assert texts[0..] == texts && v.entries[0..] == v.entries;
      assert s[1..] == Join(texts) + "}" + rest;
      JoinFrom(texts, 0, "}", rest);
    }
  }

  lemma {:induction false} EntriesParse(v: Value, i: nat, rest: string)
    requires v.Obj? && i < |v.entries|
    ensures ParseEntries(Join(EntryTexts(v.entries)[i..]) + "}" + rest) == Some(Parsed(v.entries[i..], rest))
    decreases v, |v.entries| - i
  {
    hide Join, ParseEntry, EntryText;
    var texts := EntryTexts(v.entries);
    var tail := Tail(texts, i, "}", rest);
    JoinFrom(texts, i, "}", rest);
    EntryParse(v, i, tail);
    assert v.entries[i..] == [v.entries[i]] + v.entries[i + 1..];
    if i + 1 < |v.entries| {
      EntriesParse(v, i + 1, rest);
      assert tail[1..] == Join(texts[i + 1..]) + "}" + rest;
    } else {
      assert tail[1..] == rest;
      assert v.entries[i..] == [v.entries[i]];
    }
  }

  lemma {:induction false} EntryParse(v: Value, i: nat, rest: string)
    requires v.Obj? && i < |v.entries| && Ends(rest)
    ensures ParseEntry(EntryText(v.entries[i]) + rest) == Some(Parsed(v.entries[i], rest))
    decreases v, 0
  {
    hide ParseString, ParseValue, Write, EscapeAll;
    var e := v.entries[i];
    var value := Write(e.value) + rest;
    var s := EntryText(e) + rest;
    StringParse(e.key, ":" + value);
    assert s[1..] == EscapeAll(e.key) + "\"" + (":" + value);
    assert (":" + value)[1..] == value;
    ParseWrite(e.value, rest);
  }

  /** Different values have different texts. */
  lemma WriteInjective(v: Value, w: Value)
    requires Write(v) == Write(w)
    ensures v == w
  {
    hide Write, ParseValue;
    ParseWrite(v, "");
    ParseWrite(w, "");
  }
}
