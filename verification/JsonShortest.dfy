/** The canonical text of a value is the shortest that the reader accepts for it, and the only one that
    short. This settles every choice of the printer: short escapes, no spaces, no leading zeros. */
module JsonShortest {
  import opened Wrappers
  import opened Json
  import opened CanonicalJson

  /** The part of s before the rest is the text, or longer than it. */
  ghost predicate Costs(s: string, text: string, rest: string) {
    |s| > |text| + |rest| || s == text + rest
  }

  lemma CostsConcat(s: string, a: string, t: string, b: string, rest: string)
    requires Costs(s, a, t) && Costs(t, b, rest)
    ensures Costs(s, a + b, rest)
  {
    assert a + (b + rest) == (a + b) + rest;
  }

  lemma CostsOne(s: string)
    requires s != []
    ensures Costs(s, [s[0]], s[1..])
  {
    assert s == [s[0]] + s[1..];
  }

  // ----- strings

  lemma ReadCharCosts(s: string)
    requires s != [] && s[0] != '"' && ReadChar(s).Some?
    ensures Costs(s, Escape(ReadChar(s).value.value), ReadChar(s).value.rest)
  {
    var (c, rest) := (ReadChar(s).value.value, ReadChar(s).value.rest);
    if s[0] != '\\' {
      CostsOne(s);
      assert Escape(c) == [c];
    } else if s[1] == 'u' {
      assert |s| == 6 + |rest|;
      if |Escape(c)| == 6 {
        HexBack(s[5]);
        assert s == "\\u000" + [s[5]] + rest;
      }
    } else {
      assert |Escape(c)| == 2;
      assert s == [s[0], s[1]] + rest;
    }
  }

  lemma HexBack(c: char)
    requires IsHexDigit(c)
    ensures HEXADECIMALS[HexValue(c)] == c
  {
  }

  lemma {:induction false} StringCosts(s: string)
    requires ParseString(s).Some?
    ensures Costs(s, EscapeAll(ParseString(s).value.value) + "\"", ParseString(s).value.rest)
    decreases |s|
  {
    hide Escape, ReadChar;
    var p := ParseString(s).value;
    if s[0] == '"' {
      CostsOne(s);
      assert EscapeAll(p.value) + "\"" == "\"";
    } else {
      var c := ReadChar(s).value;
      ReadCharCosts(s);
      StringCosts(c.rest);
      var tail := ParseString(c.rest).value.value;
      CostsConcat(s, Escape(c.value), c.rest, EscapeAll(tail) + "\"", p.rest);
      assert p.value[1..] == tail;
      assert EscapeAll(p.value) + "\"" == Escape(c.value) + (EscapeAll(tail) + "\"");
    }
  }

  lemma QuotedCosts(s: string)
    requires s != [] && s[0] == '"' && ParseString(s[1..]).Some?
    ensures Costs(s, Quote(ParseString(s[1..]).value.value), ParseString(s[1..]).value.rest)
  {
    hide EscapeAll, ParseString;
    var p := ParseString(s[1..]).value;
    CostsOne(s);
    StringCosts(s[1..]);
    CostsConcat(s, "\"", s[1..], EscapeAll(p.value) + "\"", p.rest);
    assert Quote(p.value) == "\"" + (EscapeAll(p.value) + "\"");
  }

  // ----- numbers

  lemma DigitsAppend(v: nat, c: char)
    requires v > 0 && IsDigit(c)
    ensures Digits(10 * v + (c as int - '0' as int)) == Digits(v) + [c]
  {
    var d := c as int - '0' as int;
    assert (10 * v + d) / 10 == v && (10 * v + d) % 10 == d;
    assert DECIMALS[d] == c;
  }

  /** After a digit that is not zero the rest of the digits are those of the number. */
  lemma {:induction false} DigitsGoOn(s: string, v: nat)
    requires v > 0
    ensures var p := ParseDigits(s, v);
            |p.rest| <= |s| && s[|s| - |p.rest|..] == p.rest && p.value > 0
            && Digits(p.value) == Digits(v) + s[..|s| - |p.rest|]
    decreases |s|
  {
    hide Digits;
    if s != [] && IsDigit(s[0]) {
      var v' := 10 * v + (s[0] as int - '0' as int);
      DigitsGoOn(s[1..], v');
      DigitsAppend(v, s[0]);
      var (t, p) := (s[1..], ParseDigits(s, v));
      assert s[..|s| - |p.rest|] == [s[0]] + t[..|t| - |p.rest|];
      assert Digits(v') + t[..|t| - |p.rest|] == Digits(v) + ([s[0]] + t[..|t| - |p.rest|]);
    }
  }

  /** Digits with zeros in front are longer than the number. */
  lemma {:induction false} DigitsCost(s: string)
    requires s != [] && IsDigit(s[0])
    ensures var p := ParseDigits(s, 0); Costs(s, Digits(p.value), p.rest)
    decreases |s|
  {
    hide Digits;
    var d: nat := s[0] as int - '0' as int;
    var (t, p) := (s[1..], ParseDigits(s, 0));
    assert p == ParseDigits(t, d);
    OneDigit(s[0]);
    if d > 0 {
      DigitsGoOn(t, d);
      assert t == t[..|t| - |p.rest|] + p.rest;
      assert s == [s[0]] + t;
      assert s == Digits(p.value) + p.rest;
    } else if t != [] && IsDigit(t[0]) {
      DigitsCost(t);
      assert |s| == |t| + 1;
    } else {
      assert s == [s[0]] + t;
    }
  }

  lemma OneDigit(c: char)
    requires IsDigit(c)
    ensures Digits(c as int - '0' as int) == [c]
  {
    assert DECIMALS[c as int - '0' as int] == c;
  }

  lemma NumberCosts(s: string)
    requires ParseNumber(s).Some?
    ensures Costs(s, Decimal(ParseNumber(s).value.value), ParseNumber(s).value.rest)
  {
    hide Digits;
    var p := ParseNumber(s).value;
    if s[0] == '-' {
      DigitsCost(s[1..]);
      var m := ParseDigits(s[1..], 0).value;
      CostsOne(s);
      CostsConcat(s, "-", s[1..], Digits(m), p.rest);
      if m == 0 {
        assert Costs(s, "-" + Digits(0), p.rest);
      }
    } else {
      DigitsCost(s);
    }
  }

  // ----- values

  lemma WordCosts(word: string, v: Value, s: string)
    requires word != [] && Word(word, v, s).Some?
    ensures Costs(s, word, Word(word, v, s).value.rest)
  {
    assert s == s[..|word|] + s[|word|..] && s[..|word|] == word;
  }

  lemma {:induction false} ValueCosts(s: string)
    requires ParseValue(s).Some?
    ensures Costs(s, Write(ParseValue(s).value.value), ParseValue(s).value.rest)
    decreases |s|, 1
  {
    hide Costs, ParseString, ParseNumber, ParseItems, ParseEntries, Quote, Decimal, Join;
    if s[0] == 'n' {
      WordCosts("null", Null, s);
    } else if s[0] == 't' {
      WordCosts("true", Bool(true), s);
    } else if s[0] == 'f' {
      WordCosts("false", Bool(false), s);
    } else if s[0] == '"' {
      QuotedCosts(s);
    } else if s[0] == '[' {
      ArrayCosts(s);
    } else if s[0] == '{' {
      ObjectCosts(s);
    } else {
      NumberCosts(s);
    }
  }

  lemma EmptyCosts(s: string, open: char, close: char)
    requires |s| > 1 && s[0] == open && s[1] == close
    ensures Costs(s, [open, close], s[2..])
  {
    assert s == [open, close] + s[2..];
  }

  lemma {:induction false} ArrayCosts(s: string)
    requires ParseValue(s).Some? && s[0] == '['
    ensures Costs(s, Write(ParseValue(s).value.value), ParseValue(s).value.rest)
    decreases |s|, 0
  {
    hide Costs, Join, ParseItems, Write;
    var p := ParseValue(s).value;
    WriteArray(p.value.items);
    if |s| > 1 && s[1] == ']' {
      JoinNothing(ItemTexts([]));
      EmptyCosts(s, '[', ']');
      assert "[" + "" + "]" == ['[', ']'];
    } else {
      var items := ItemTexts(p.value.items);
      CostsOne(s);
      ItemsCosts(s[1..]);
      CostsConcat(s, "[", s[1..], Join(items) + "]", p.rest);
      assert "[" + (Join(items) + "]") == "[" + Join(items) + "]";
    }
  }

  lemma {:induction false} ItemsCosts(s: string)
    requires ParseItems(s).Some?
    ensures var p := ParseItems(s).value; Costs(s, Join(ItemTexts(p.value)) + "]", p.rest)
    decreases |s|, 2
  {
    hide Costs, ParseValue, Write, Join;
    var (v, p) := (ParseValue(s).value, ParseItems(s).value);
    ValueCosts(s);
    CostsOne(v.rest);
    if v.rest[0] == ']' {
      CostsConcat(s, Write(v.value), v.rest, "]", p.rest);
      assert ItemTexts(p.value) == [Write(v.value)];
      JoinStep(ItemTexts(p.value));
    } else {
      var q := ParseItems(v.rest[1..]).value;
      ItemsCosts(v.rest[1..]);
      CostsConcat(v.rest, ",", v.rest[1..], Join(ItemTexts(q.value)) + "]", p.rest);
      CostsConcat(s, Write(v.value), v.rest, "," + (Join(ItemTexts(q.value)) + "]"), p.rest);
      assert ItemTexts(p.value) == [Write(v.value)] + ItemTexts(q.value);
      ItemsNotEmpty(v.rest[1..]);
      JoinMore(Write(v.value), ItemTexts(q.value), "]");
    }
  }

  lemma ItemsNotEmpty(s: string)
    requires ParseItems(s).Some?
    ensures ParseItems(s).value.value != []
  {
    hide ParseValue;
  }

  lemma EntriesNotEmpty(s: string)
    requires ParseEntries(s).Some?
    ensures ParseEntries(s).value.value != []
  {
    hide ParseEntry;
  }

  lemma JoinStep(texts: seq<string>)
    requires |texts| == 1
    ensures Join(texts) == texts[0]
  {
  }

  lemma JoinMore(t: string, texts: seq<string>, close: string)
    requires texts != []
    ensures Join([t] + texts) + close == t + ("," + (Join(texts) + close))
  {
    assert ([t] + texts)[1..] == texts;
  }

  lemma {:induction false} ObjectCosts(s: string)
    requires ParseValue(s).Some? && s[0] == '{'
    ensures Costs(s, Write(ParseValue(s).value.value), ParseValue(s).value.rest)
    decreases |s|, 0
  {
    hide Costs, Join, ParseEntries, Write;
    var p := ParseValue(s).value;
    WriteObject(p.value.entries);
    if |s| > 1 && s[1] == '}' {
      JoinNothing(EntryTexts([]));
      EmptyCosts(s, '{', '}');
      assert "{" + "" + "}" == ['{', '}'];
    } else {
      var entries := EntryTexts(p.value.entries);
      CostsOne(s);
      EntriesCosts(s[1..]);
      CostsConcat(s, "{", s[1..], Join(entries) + "}", p.rest);
      assert "{" + (Join(entries) + "}") == "{" + Join(entries) + "}";
    }
  }

  lemma {:induction false} EntryCosts(s: string)
    requires ParseEntry(s).Some?
    ensures var p := ParseEntry(s).value; Costs(s, EntryText(p.value), p.rest)
    decreases |s|, 2
  {
    hide Costs, ParseValue, ParseString, Write, Quote;
    var (k, p) := (ParseString(s[1..]).value, ParseEntry(s).value);
    QuotedCosts(s);
    CostsOne(k.rest);
    ValueCosts(k.rest[1..]);
    CostsConcat(s, Quote(k.value), k.rest, ":", k.rest[1..]);
    CostsConcat(s, Quote(k.value) + ":", k.rest[1..], Write(p.value.value), p.rest);
  }

  lemma {:induction false} EntriesCosts(s: string)
    requires ParseEntries(s).Some?
    ensures var p := ParseEntries(s).value; Costs(s, Join(EntryTexts(p.value)) + "}", p.rest)
    decreases |s|, 3
  {
    hide Costs, ParseEntry, EntryText, Join;
    var (e, p) := (ParseEntry(s).value, ParseEntries(s).value);
    EntryCosts(s);
    CostsOne(e.rest);
    if e.rest[0] == '}' {
      CostsConcat(s, EntryText(e.value), e.rest, "}", p.rest);
      assert EntryTexts(p.value) == [EntryText(e.value)];
      JoinStep(EntryTexts(p.value));
    } else {
      var q := ParseEntries(e.rest[1..]).value;
      EntriesCosts(e.rest[1..]);
      CostsConcat(e.rest, ",", e.rest[1..], Join(EntryTexts(q.value)) + "}", p.rest);
      CostsConcat(s, EntryText(e.value), e.rest, "," + (Join(EntryTexts(q.value)) + "}"), p.rest);
      assert EntryTexts(p.value) == [EntryText(e.value)] + EntryTexts(q.value);
      EntriesNotEmpty(e.rest[1..]);
      JoinMore(EntryText(e.value), EntryTexts(q.value), "}");
    }
  }

  /** A text that reads as the canonical form of the value is the printed one, or longer. */
  lemma PrintedTextIsTheShortest(v: Value, s: string)
    requires ParseValue(s) == Some(Parsed(Canon(v), ""))
    ensures s == Print(v) || |s| > |Print(v)|
  {
    hide ParseValue, Write, Canon;
    ValueCosts(s);
    assert Print(v) + "" == Print(v);
  }
}
