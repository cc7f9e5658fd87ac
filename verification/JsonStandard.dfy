/** The canonical printer against RFC 8785: when its text holds raw control characters, and when its
    key order is that of the standard. */
module JsonStandard {
  import opened Wrappers
  import opened Json
  import opened CanonicalJson
  import opened Sorting
  import Text

  // ----- control characters

  /** A character that JSON wants escaped stands in the text. */
  ghost predicate HasControl(s: string) { exists c :: c in s && c < '\U{20}' }

  /** A character that the printer leaves as it is, though JSON wants it escaped. */
  predicate Unescaped(c: char) { '\U{10}' <= c < '\U{20}' }

  ghost predicate HasUnescaped(s: string) { exists c :: c in s && Unescaped(c) }

  /** Some string or key, at any depth, holds one. */
  ghost predicate Unescapable(v: Value) {
    match v
    case Str(s) => HasUnescaped(s)
    case Arr(items) => exists i :: 0 <= i < |items| && Unescapable(items[i])
    case Obj(es) => exists i :: 0 <= i < |es| && (HasUnescaped(es[i].key) || Unescapable(es[i].value))
    case _ => false
  }

  lemma ControlConcat(a: string, b: string)
    ensures HasControl(a + b) <==> HasControl(a) || HasControl(b)
  {
    assert forall c :: c in a + b <==> c in a || c in b;
  }

  lemma EscapeControl(c: char)
    ensures HasControl(Escape(c)) <==> Unescaped(c)
  {
    if Unescaped(c) {
      assert c in Escape(c);
    } else if c < '\U{10}' {
      assert forall i :: 0 <= i < |HEXADECIMALS| ==> HEXADECIMALS[i] >= '\U{20}';
    }
  }

  lemma {:induction false} EscapeAllControl(s: string)
    ensures HasControl(EscapeAll(s)) <==> HasUnescaped(s)
  {
    hide Escape, HasControl, Unescaped;
    if s == [] {
      assert !HasControl("") by { NoControl(); }
    } else {
      EscapeControl(s[0]);
      EscapeAllControl(s[1..]);
      ControlConcat(Escape(s[0]), EscapeAll(s[1..]));
      assert s == [s[0]] + s[1..];
      assert forall c :: c in s <==> c == s[0] || c in s[1..];
    }
  }

  /** The texts of the printer's own that hold no control character. */
  lemma NoControl()
    ensures !HasControl("") && !HasControl("\"") && !HasControl(",") && !HasControl(":") && !HasControl("-")
    ensures !HasControl("[") && !HasControl("]") && !HasControl("{") && !HasControl("}")
    ensures !HasControl("null") && !HasControl("true") && !HasControl("false")
  {
  }

  lemma QuoteControl(s: string)
    ensures HasControl(Quote(s)) <==> HasUnescaped(s)
  {
    hide HasControl, EscapeAll, HasUnescaped;
    NoControl();
    EscapeAllControl(s);
    ControlConcat("\"", EscapeAll(s));
    ControlConcat("\"" + EscapeAll(s), "\"");
  }

  lemma {:induction false} DigitsControl(n: nat)
    ensures !HasControl(Digits(n))
  {
    assert forall i :: 0 <= i < |DECIMALS| ==> DECIMALS[i] >= '\U{20}';
    if n >= 10 {
      DigitsControl(n / 10);
      ControlConcat(Digits(n / 10), [DECIMALS[n % 10]]);
    }
  }

  lemma DecimalControl(n: int)
    ensures !HasControl(Decimal(n))
  {
    hide HasControl, Digits;
    NoControl();
    DigitsControl(if n < 0 then -n else n);
    if n < 0 { ControlConcat("-", Digits(-n)); }
  }

  ghost predicate SomeControl(texts: seq<string>) { exists i :: 0 <= i < |texts| && HasControl(texts[i]) }

  lemma {:induction false} JoinControl(texts: seq<string>)
    ensures HasControl(Join(texts)) <==> SomeControl(texts)
  {
    hide HasControl;
    NoControl();
    if |texts| == 1 {
      assert SomeControl(texts) <==> HasControl(texts[0]);
    } else if texts != [] {
      JoinControl(texts[1..]);
      ControlConcat(texts[0], ",");
      ControlConcat(texts[0] + ",", Join(texts[1..]));
      SomeControlStep(texts);
    }
  }

  lemma SomeControlStep(texts: seq<string>)
    requires texts != []
    ensures SomeControl(texts) <==> HasControl(texts[0]) || SomeControl(texts[1..])
  {
    hide HasControl;
    if SomeControl(texts) {
      var i :| 0 <= i < |texts| && HasControl(texts[i]);
      assert i > 0 ==> HasControl(texts[1..][i - 1]);
    }
    if SomeControl(texts[1..]) {
      var i :| 0 <= i < |texts[1..]| && HasControl(texts[1..][i]);
      assert HasControl(texts[i + 1]);
    }
  }

  lemma BracketControl(open: string, inner: string, close: string)
    requires !HasControl(open) && !HasControl(close)
    ensures HasControl(open + inner + close) <==> HasControl(inner)
  {
    hide HasControl;
    ControlConcat(open, inner);
    ControlConcat(open + inner, close);
  }

  lemma EntryControl(e: Entry)
    ensures HasControl(EntryText(e)) <==> HasUnescaped(e.key) || HasControl(Write(e.value))
  {
    hide HasControl, HasUnescaped, Quote, Write;
    NoControl();
    QuoteControl(e.key);
    ControlConcat(Quote(e.key), ":");
    ControlConcat(Quote(e.key) + ":", Write(e.value));
  }

  lemma {:induction false} WriteControl(v: Value)
    ensures HasControl(Write(v)) <==> Unescapable(v)
    decreases v
  {
    hide HasControl, HasUnescaped, Join, Quote, Digits, EntryText;
    NoControl();
    match v
    case Null =>
    case Bool(_) =>
    case Num(n) => DecimalControl(n);
    case Str(s) => QuoteControl(s);
    case Arr(items) =>
      WriteArray(items);
      forall i | 0 <= i < |items| ensures HasControl(ItemTexts(items)[i]) <==> Unescapable(items[i]) {
        WriteControl(items[i]);
      }
      JoinControl(ItemTexts(items));
      BracketControl("[", Join(ItemTexts(items)), "]");
    case Obj(es) =>
      WriteObject(es);
      forall i | 0 <= i < |es|
        ensures HasControl(EntryTexts(es)[i]) <==> HasUnescaped(es[i].key) || Unescapable(es[i].value)
      {
        WriteControl(es[i].value);
        EntryControl(es[i]);
      }
      JoinControl(EntryTexts(es));
      BracketControl("{", Join(EntryTexts(es)), "}");
  }

  ghost predicate UnescapableEntry(e: Entry) { HasUnescaped(e.key) || Unescapable(e.value) }

  lemma {:induction false} CanonUnescapable(v: Value)
    ensures Unescapable(Canon(v)) <==> Unescapable(v)
    decreases v
  {
    hide Sort, ByKey, HasUnescaped;
    match v
    case Arr(items) =>
      forall i | 0 <= i < |items| ensures Unescapable(Canon(items[i])) <==> Unescapable(items[i]) {
        CanonUnescapable(items[i]);
      }
      var c := Canon(v).items;
      assert |c| == |items| && forall i :: 0 <= i < |items| ==> c[i] == Canon(items[i]);
    case Obj(es) =>
      forall i | 0 <= i < |es| ensures UnescapableEntry(CanonEntries(es)[i]) <==> UnescapableEntry(es[i]) {
        CanonUnescapable(es[i].value);
      }
      CanonObject(es);
      SortMembers(CanonEntries(es), ByKey());
      SameUnescapable(es, Sort(CanonEntries(es), ByKey()));
    case _ =>
  }

  lemma SameUnescapable(es: seq<Entry>, sorted: seq<Entry>)
    requires forall e :: e in sorted <==> e in CanonEntries(es)
    requires forall i :: 0 <= i < |es| ==> (UnescapableEntry(CanonEntries(es)[i]) <==> UnescapableEntry(es[i]))
    ensures Unescapable(Obj(sorted)) <==> Unescapable(Obj(es))
  {
    hide HasUnescaped, Canon;
    if Unescapable(Obj(sorted)) {
      var i :| 0 <= i < |sorted| && UnescapableEntry(sorted[i]);
      assert sorted[i] in CanonEntries(es);
      var j :| 0 <= j < |es| && CanonEntries(es)[j] == sorted[i];
      assert UnescapableEntry(es[j]);
    }
    if Unescapable(Obj(es)) {
      var j :| 0 <= j < |es| && UnescapableEntry(es[j]);
      assert CanonEntries(es)[j] in sorted;
      var i :| 0 <= i < |sorted| && sorted[i] == CanonEntries(es)[j];
      assert UnescapableEntry(sorted[i]);
    }
  }

  /** The printed text holds a raw control character, and so is no JSON, exactly when some string or key of
      the value, at any depth, holds one from U+0010 to U+001F. */
  lemma RawControlExactlyWhen(v: Value)
    ensures HasControl(Print(v)) <==> Unescapable(v)
  {
    hide HasControl, Unescapable, Write, Canon;
    WriteControl(Canon(v));
    CanonUnescapable(v);
  }

  /** Such a value. */
  lemma RawControlOccurs()
    ensures HasControl(Print(Str("\U{1b}")))
  {
    hide HasControl, Print;
    assert '\U{1b}' in "\U{1b}" && Unescaped('\U{1b}');
    RawControlExactlyWhen(Str("\U{1b}"));
  }

  // ----- the order of keys

  /** The UTF-16 code units of a character. */
  function Units(c: char): seq<nat> {
    var n := c as int;
    if n < 0x1_0000 then [n] else [0xD800 + (n - 0x1_0000) / 0x400, 0xDC00 + (n - 0x1_0000) % 0x400]
  }

  function Utf16(s: string): seq<nat> {
    if s == [] then [] else Units(s[0]) + Utf16(s[1..])
  }

  /** Lexicographic order of code units, by which the standard sorts keys. */
  predicate UnitsLeq(a: seq<nat>, b: seq<nat>) {
    a == [] || (b != [] && (a[0] < b[0] || (a[0] == b[0] && UnitsLeq(a[1..], b[1..]))))
  }

  predicate Leq16(a: string, b: string) { UnitsLeq(Utf16(a), Utf16(b)) }

  predicate Supplementary(c: char) { c as int >= 0x1_0000 }

  /** One beyond the basic plane, the other at its upper end. */
  predicate CharsClash(c: char, d: char) {
    || (Supplementary(c) && 0xE000 <= d as int < 0x1_0000)
    || (Supplementary(d) && 0xE000 <= c as int < 0x1_0000)
  }

  /** Where the keys first differ, they clash. */
  predicate Clash(a: string, b: string) {
    a != [] && b != [] && if a[0] == b[0] then Clash(a[1..], b[1..]) else CharsClash(a[0], b[0])
  }

  lemma {:induction false} UnitsLeqSame(p: seq<nat>, a: seq<nat>, b: seq<nat>)
    ensures UnitsLeq(p + a, p + b) == UnitsLeq(a, b)
  {
    if p == [] {
      assert p + a == a && p + b == b;
    } else {
      assert (p + a)[1..] == p[1..] + a && (p + b)[1..] == p[1..] + b;
      UnitsLeqSame(p[1..], a, b);
    }
  }

  lemma UnitsOrder(c: char, d: char, a: seq<nat>, b: seq<nat>)
    requires c != d
    ensures UnitsLeq(Units(c) + a, Units(d) + b) == if CharsClash(c, d) then d < c else c < d
  {
    var (x, y) := (Units(c) + a, Units(d) + b);
    if Supplementary(c) && Supplementary(d) {
      SurrogateOrder(c as int - 0x1_0000, d as int - 0x1_0000);
      assert x[1..][0] == Units(c)[1] && y[1..][0] == Units(d)[1];
    }
  }

  lemma SurrogateOrder(m: nat, n: nat)
    requires m != n
    ensures m < n <==> m / 0x400 < n / 0x400 || (m / 0x400 == n / 0x400 && m % 0x400 < n % 0x400)
    ensures m / 0x400 == n / 0x400 ==> m % 0x400 != n % 0x400
  {
    assert m == m / 0x400 * 0x400 + m % 0x400 && n == n / 0x400 * 0x400 + n % 0x400;
  }

  lemma {:induction false} OrderOfDifferent(a: string, b: string)
    requires a != b
    ensures Leq16(a, b) == if Clash(a, b) then Text.Leq(b, a) else Text.Leq(a, b)
    decreases |a|
  {
    hide Units;
    if a == [] || b == [] {
      Nonempty(a);
      Nonempty(b);
    } else if a[0] == b[0] {
      assert a == [a[0]] + a[1..] && b == [b[0]] + b[1..];
      OrderOfDifferent(a[1..], b[1..]);
      UnitsLeqSame(Units(a[0]), Utf16(a[1..]), Utf16(b[1..]));
    } else {
      UnitsOrder(a[0], b[0], Utf16(a[1..]), Utf16(b[1..]));
    }
  }

  lemma Nonempty(a: string)
    ensures a == [] <==> Utf16(a) == []
  {
  }

  /** The printer and the standard order two keys alike exactly when these do not clash. */
  lemma OrdersAgreeExactlyWhen(a: string, b: string)
    requires a != b
    ensures Leq16(a, b) == Text.Leq(a, b) <==> !Clash(a, b)
  {
    hide Text.Leq;
    OrderOfDifferent(a, b);
    Text.LeqTotal(a, b);
    if Text.Leq(a, b) && Text.Leq(b, a) { Text.LeqAntisymmetric(a, b); }
  }

  ghost predicate NoClash(keys: seq<string>) {
    forall i, j :: 0 <= i < j < |keys| ==> !Clash(keys[i], keys[j])
  }

  function StandardOrder(): (string, string) -> bool { (a: string, b: string) => Leq16(a, b) }

  /** The keys of an object, as printed, stand in the standard's order exactly when no two of them clash. */
  lemma KeysInStandardOrderExactlyWhen(keys: seq<string>)
    requires NoRepeats(keys)
    ensures var printed := Sort(keys, KeyOrder());
            Sorted(printed, StandardOrder()) <==> NoClash(printed)
  {
    hide Sort, Text.Leq, Clash, Leq16;
    var printed := Sort(keys, KeyOrder());
    KeysOrdered();
    SortSorts(keys, KeyOrder());
    SortMembers(keys, KeyOrder());
    NoRepeatsKept(keys, printed);
    forall i, j | 0 <= i < j < |printed|
      ensures Leq16(printed[i], printed[j]) <==> !Clash(printed[i], printed[j])
    {
      OrdersAgreeExactlyWhen(printed[i], printed[j]);
    }
  }

  lemma NoRepeatsKept(a: seq<string>, b: seq<string>)
    requires NoRepeats(a) && multiset(a) == multiset(b)
    ensures NoRepeats(b)
  {
    SameMembers(a, b);
    if i, j :| 0 <= i < j < |b| && b[i] == b[j] {
      var x := b[i];
      assert x in a;
      var k :| 0 <= k < |a| && a[k] == x;
      TakeOutSame(a, k, b, i);
      SameMembers(Without(a, k), Without(b, i));
      assert Without(b, i)[j - 1] == x;
      MembersWithout(a, k);
      assert false;
    }
  }

  /** Two keys that clash. */
  lemma KeysClash()
    ensures Text.Leq("\U{E000}", "\U{10000}") && !Leq16("\U{E000}", "\U{10000}")
  {
    OrderOfDifferent("\U{E000}", "\U{10000}");
    assert CharsClash('\U{E000}', '\U{10000}');
  }
}
