/** The canonical JSON printer: compact text with the keys of every object sorted. */
module CanonicalJson {
  import opened Wrappers
  import opened Json
  import opened Sorting
  import Text

  // ----- the canonical form of a value

  function ByKey(): (Entry, Entry) -> bool { (a: Entry, b: Entry) => Text.Leq(a.key, b.key) }

  function KeyOrder(): (string, string) -> bool { (a: string, b: string) => Text.Leq(a, b) }

  function Canon(v: Value): Value {
    match v
    case Arr(items) => Arr(seq(|items|, i requires 0 <= i < |items| => Canon(items[i])))
    case Obj(es) =>
      Obj(Sort(seq(|es|, i requires 0 <= i < |es| => Entry(es[i].key, Canon(es[i].value))), ByKey()))
    case _ => v
  }

  function Print(v: Value): string { Write(Canon(v)) }

  function Keys(es: seq<Entry>): seq<string> { seq(|es|, i requires 0 <= i < |es| => es[i].key) }

  /** The keys of an object are those of a map: none stands twice. */
  ghost predicate WellFormed(v: Value) {
    match v
    case Arr(items) => forall i :: 0 <= i < |items| ==> WellFormed(items[i])
    case Obj(es) => DistinctKeys(es) && forall i :: 0 <= i < |es| ==> WellFormed(es[i].value)
    case _ => true
  }

  ghost predicate DistinctKeys(es: seq<Entry>) {
    forall i, j :: 0 <= i < j < |es| ==> es[i].key != es[j].key
  }

  /** Equal up to the order of the entries of objects, at every depth: objects have the same keys, and
      under each key values that are the same. */
  ghost predicate Same(v: Value, w: Value)
    decreases v
  {
    match (v, w)
    case (Arr(a), Arr(b)) => |a| == |b| && forall i :: 0 <= i < |a| ==> Same(a[i], b[i])
    case (Obj(a), Obj(b)) =>
      && (forall i :: 0 <= i < |a| ==> SameEntryIn(a[i], b))
      && (forall j :: 0 <= j < |b| ==> HasKey(a, b[j].key))
    case _ => v == w
  }

  ghost predicate SameEntryIn(e: Entry, fs: seq<Entry>)
    decreases e
  {
    exists j :: 0 <= j < |fs| && e.key == fs[j].key && Same(e.value, fs[j].value)
  }

  predicate HasKey(es: seq<Entry>, key: string) { exists i :: 0 <= i < |es| && es[i].key == key }

  lemma KeysOrdered()
    ensures TotalPreorder(ByKey()) && TotalPreorder(KeyOrder())
  {
    hide Text.Leq;
    forall a, b ensures Text.Leq(a, b) || Text.Leq(b, a) { Text.LeqTotal(a, b); }
    forall a, b, c | Text.Leq(a, b) && Text.Leq(b, c) ensures Text.Leq(a, c) { Text.LeqTransitive(a, b, c); }
  }

  lemma DistinctKeysOrdered(es: seq<Entry>)
    requires DistinctKeys(es)
    ensures NoRepeats(es) && AntisymmetricOn(es, ByKey())
  {
    hide Text.Leq;
    forall a, b | a in es && b in es && ByKey()(a, b) && ByKey()(b, a) ensures a == b {
      Text.LeqAntisymmetric(a.key, b.key);
    }
  }

  // ----- what the canonical form of an object holds

  function CanonEntries(es: seq<Entry>): seq<Entry> {
    seq(|es|, i requires 0 <= i < |es| => Entry(es[i].key, Canon(es[i].value)))
  }

  lemma CanonObject(es: seq<Entry>)
    ensures Canon(Obj(es)) == Obj(Sort(CanonEntries(es), ByKey()))
  {
    hide Sort;
    assert CanonEntries(es) == seq(|es|, i requires 0 <= i < |es| => Entry(es[i].key, Canon(es[i].value)));
  }

  ghost predicate Meets(e: Entry, f: Entry) { e.key == f.key && Canon(e.value) == Canon(f.value) }

  ghost predicate Met(e: Entry, fs: seq<Entry>) { exists j :: 0 <= j < |fs| && Meets(e, fs[j]) }

  ghost predicate Covers(es: seq<Entry>, fs: seq<Entry>) { forall i :: 0 <= i < |es| ==> Met(es[i], fs) }

  lemma MetExactlyWhenIn(e: Entry, fs: seq<Entry>)
    ensures Met(e, fs) <==> Entry(e.key, Canon(e.value)) in CanonEntries(fs)
  {
    hide Canon;
    var x := Entry(e.key, Canon(e.value));
    if x in CanonEntries(fs) {
      var j :| 0 <= j < |fs| && CanonEntries(fs)[j] == x;
      assert Meets(e, fs[j]);
    }
    if Met(e, fs) {
      var j :| 0 <= j < |fs| && Meets(e, fs[j]);
      assert CanonEntries(fs)[j] == x;
    }
  }

  lemma CoversExactlyWhenIn(es: seq<Entry>, fs: seq<Entry>)
    ensures Covers(es, fs) <==> forall x :: x in CanonEntries(es) ==> x in CanonEntries(fs)
  {
    hide Canon, Met;
    var a := CanonEntries(es);
    forall i | 0 <= i < |es| ensures Met(es[i], fs) <==> a[i] in CanonEntries(fs) {
      MetExactlyWhenIn(es[i], fs);
    }
    assert forall i :: 0 <= i < |es| ==> a[i] in a;
  }

  /** Canonical forms of objects agree exactly when every entry of each meets one of the other. */
  lemma ObjectsAgree(es: seq<Entry>, fs: seq<Entry>)
    requires DistinctKeys(es) && DistinctKeys(fs)
    ensures Canon(Obj(es)) == Canon(Obj(fs)) <==> Covers(es, fs) && Covers(fs, es)
  {
    hide Sort, Canon, ByKey, Covers;
    var (a, b) := (CanonEntries(es), CanonEntries(fs));
    CanonObject(es);
    CanonObject(fs);
    SortMembers(a, ByKey());
    SortMembers(b, ByKey());
    CoversExactlyWhenIn(es, fs);
    CoversExactlyWhenIn(fs, es);
    if Covers(es, fs) && Covers(fs, es) { SortMet(a, b); }
  }

  lemma SortMet(a: seq<Entry>, b: seq<Entry>)
    requires DistinctKeys(a) && DistinctKeys(b) && forall x :: x in a <==> x in b
    ensures Sort(a, ByKey()) == Sort(b, ByKey())
  {
    hide Sort, ByKey;
    KeysOrdered();
    DistinctKeysOrdered(a);
    DistinctKeysOrdered(b);
    SameElements(a, b);
    SortIgnoresOrder(a, b, ByKey());
  }

  /** Canonical forms agree exactly when the values are equal up to the order of entries. */
  lemma {:induction false} CanonExactlyWhenSame(v: Value, w: Value)
    requires WellFormed(v) && WellFormed(w)
    ensures Canon(v) == Canon(w) <==> Same(v, w)
    decreases v
  {
    hide Sort, ByKey;
    match (v, w)
    case (Arr(a), Arr(b)) =>
      if |a| == |b| {
        forall i | 0 <= i < |a| ensures Canon(a[i]) == Canon(b[i]) <==> Same(a[i], b[i]) {
          CanonExactlyWhenSame(a[i], b[i]);
        }
      }
      ArraysAgree(a, b);
    case (Obj(a), Obj(b)) =>
      forall i, j | 0 <= i < |a| && 0 <= j < |b|
        ensures Meets(a[i], b[j]) <==> a[i].key == b[j].key && Same(a[i].value, b[j].value)
      {
        CanonExactlyWhenSame(a[i].value, b[j].value);
      }
      ObjectsAgree(a, b);
      ObjectsSame(a, b);
    case _ =>
  }

  lemma ArraysAgree(a: seq<Value>, b: seq<Value>)
    ensures Canon(Arr(a)) == Canon(Arr(b)) <==> |a| == |b| && forall i :: 0 <= i < |a| ==> Canon(a[i]) == Canon(b[i])
  {
    var (c, d) := (Canon(Arr(a)).items, Canon(Arr(b)).items);
    assert |c| == |a| && |d| == |b|;
    assert forall i :: 0 <= i < |a| ==> c[i] == Canon(a[i]);
    assert forall i :: 0 <= i < |b| ==> d[i] == Canon(b[i]);
  }

  lemma ObjectsSame(a: seq<Entry>, b: seq<Entry>)
    requires DistinctKeys(b)
    requires forall i, j :: 0 <= i < |a| && 0 <= j < |b| ==>
      (Meets(a[i], b[j]) <==> a[i].key == b[j].key && Same(a[i].value, b[j].value))
    ensures Same(Obj(a), Obj(b)) <==> Covers(a, b) && Covers(b, a)
  {
    hide Canon;
    forall i | 0 <= i < |a| ensures SameEntryIn(a[i], b) <==> Met(a[i], b) {
    }
    if Covers(a, b) {
      forall j | 0 <= j < |b| ensures HasKey(a, b[j].key) <==> Met(b[j], a) {
        if HasKey(a, b[j].key) {
          var i :| 0 <= i < |a| && a[i].key == b[j].key;
          assert Met(a[i], b);
          assert Meets(a[i], b[j]) && Meets(b[j], a[i]);
        }
      }
    }
  }

  /** Two values print alike exactly when they are equal up to the order of entries. */
  lemma PrintsAlikeExactlyWhenSame(v: Value, w: Value)
    requires WellFormed(v) && WellFormed(w)
    ensures Print(v) == Print(w) <==> Same(v, w)
  {
    hide Write, Canon, Same;
    CanonExactlyWhenSame(v, w);
    if Print(v) == Print(w) { WriteInjective(Canon(v), Canon(w)); }
  }

  lemma {:induction false} SortFixes<T>(s: seq<T>, leq: (T, T) -> bool)
    requires Sorted(s, leq)
    ensures Sort(s, leq) == s
  {
    if s != [] {
      SortFixes(s[1..], leq);
      assert s == [s[0]] + s[1..];
    }
  }

  lemma {:induction false} CanonIdempotent(v: Value)
    ensures Canon(Canon(v)) == Canon(v)
    decreases v
  {
    hide Sort, ByKey;
    match v
    case Arr(items) =>
      forall i | 0 <= i < |items| ensures Canon(Canon(items[i])) == Canon(items[i]) { CanonIdempotent(items[i]); }
    case Obj(es) =>
      var sorted := Sort(CanonEntries(es), ByKey());
      CanonObject(es);
      SortMembers(CanonEntries(es), ByKey());
      forall i | 0 <= i < |sorted| ensures CanonEntries(sorted)[i] == sorted[i] {
        assert sorted[i] in CanonEntries(es);
        var j :| 0 <= j < |es| && CanonEntries(es)[j] == sorted[i];
        CanonIdempotent(es[j].value);
      }
      assert CanonEntries(sorted) == sorted;
      KeysOrdered();
      SortSorts(CanonEntries(es), ByKey());
      SortFixes(sorted, ByKey());
      CanonObject(sorted);
    case _ =>
  }

  /** The reader recovers the canonical form from the printed text, and that prints to the same text. */
  lemma PrintedTextReads(v: Value)
    ensures ParseValue(Print(v)) == Some(Parsed(Canon(v), ""))
    ensures Print(Canon(v)) == Print(v)
  {
    hide Write, Canon, ParseValue;
    ParseWrite(Canon(v), "");
    assert Print(v) + "" == Print(v);
    CanonIdempotent(v);
  }

  // ----- the printer

  /** The buffer that the printer appends to. */
  class Output {
    var text: string

    constructor ()
      ensures text == ""
    {
      text := "";
    }
  }

  lemma {:induction false} EscapeLast(s: string, c: char)
    ensures EscapeAll(s + [c]) == EscapeAll(s) + Escape(c)
  {
    hide Escape;
    if s == [] {
      assert [c][1..] == [];
    } else {
      assert (s + [c])[1..] == s[1..] + [c];
      EscapeLast(s[1..], c);
    }
  }

  lemma {:induction false} JoinLast(texts: seq<string>, t: string)
    ensures Join(texts + [t]) == (if texts == [] then "" else Join(texts) + ",") + t
  {
    if texts != [] {
      assert (texts + [t])[1..] == texts[1..] + [t];
      JoinLast(texts[1..], t);
    }
  }

  /** One more text, with the comma that parts it from those before. */
  lemma JoinPrefix(texts: seq<string>, i: nat)
    requires i < |texts|
    ensures Join(texts[..i + 1]) == Join(texts[..i]) + ((if i > 0 then "," else "") + texts[i])
  {
    assert texts[..i + 1] == texts[..i] + [texts[i]];
    JoinLast(texts[..i], texts[i]);
  }

  method WriteString(w: Output, s: string)
    modifies w
    ensures w.text == old(w.text) + Quote(s)
  {
    hide Escape, EscapeAll;
    w.text := w.text + "\"";
    assert EscapeAll(s[..0]) == "" by { EscapeNothing(); }
    for i := 0 to |s|
      invariant w.text == old(w.text) + "\"" + EscapeAll(s[..i])
    {
      EscapeLast(s[..i], s[i]);
      assert s[..i + 1] == s[..i] + [s[i]];
      w.text := w.text + Escape(s[i]);
    }
    assert s[..|s|] == s;
    w.text := w.text + "\"";
  }

  lemma EscapeNothing()
    ensures EscapeAll("") == ""
  {
  }

  /** Where a key stands. */
  function IndexOf(es: seq<Entry>, key: string): (i: nat)
    requires HasKey(es, key)
    ensures i < |es| && es[i].key == key
  {
    if es[0].key == key then 0
    else
      assert HasKey(es[1..], key) by {
        var i :| 0 <= i < |es| && es[i].key == key;
        assert es[1..][i - 1].key == key;
      }
      1 + IndexOf(es[1..], key)
  }

  lemma {:induction false} InsertKeys(e: Entry, es: seq<Entry>)
    ensures Keys(Insert(e, es, ByKey())) == Insert(e.key, Keys(es), KeyOrder())
  {
    hide Text.Leq;
    if es != [] && !Text.Leq(e.key, es[0].key) {
      InsertKeys(e, es[1..]);
      assert Keys(es)[1..] == Keys(es[1..]);
      assert Keys([es[0]] + Insert(e, es[1..], ByKey())) == [es[0].key] + Keys(Insert(e, es[1..], ByKey()));
    } else {
      assert Keys([e] + es) == [e.key] + Keys(es);
    }
  }

  /** Sorting entries sorts their keys. */
  lemma {:induction false} SortKeys(es: seq<Entry>)
    ensures Keys(Sort(es, ByKey())) == Sort(Keys(es), KeyOrder())
  {
    hide Insert, ByKey, KeyOrder;
    if es != [] {
      SortKeys(es[1..]);
      InsertKeys(es[0], Sort(es[1..], ByKey()));
      assert Keys(es)[1..] == Keys(es[1..]);
    }
  }

  /** The entry that stands at a place of the canonical form is the one under the key that sorts there. */
  lemma CanonEntryAt(es: seq<Entry>, i: nat)
    requires DistinctKeys(es) && i < |es|
    ensures |Sort(Keys(es), KeyOrder())| == |Sort(CanonEntries(es), ByKey())| == |es|
    ensures var key := Sort(Keys(es), KeyOrder())[i];
            && HasKey(es, key)
            && Sort(CanonEntries(es), ByKey())[i] == Entry(key, Canon(es[IndexOf(es, key)].value))
  {
    hide Sort, Canon, ByKey, KeyOrder, IndexOf;
    var a := CanonEntries(es);
    var sorted := Sort(a, ByKey());
    SortKeys(a);
    assert Keys(a) == Keys(es);
    SortMembers(a, ByKey());
    assert sorted[i] in a;
    var j :| 0 <= j < |a| && a[j] == sorted[i];
    var key := sorted[i].key;
    assert Keys(sorted)[i] == key;
    assert es[j].key == key;
    assert IndexOf(es, key) == j;
  }

  /** The texts that an object prints, in order. */
  function SortedTexts(es: seq<Entry>): seq<string> { EntryTexts(Sort(CanonEntries(es), ByKey())) }

  lemma PrintObject(es: seq<Entry>)
    ensures Print(Obj(es)) == "{" + Join(SortedTexts(es)) + "}"
  {
    hide Sort, Write, Canon;
    CanonObject(es);
    WriteObject(Sort(CanonEntries(es), ByKey()));
  }

  lemma SortedTextCount(es: seq<Entry>)
    ensures |SortedTexts(es)| == |Sort(Keys(es), KeyOrder())| == |es|
  {
    hide Sort;
    SortMembers(CanonEntries(es), ByKey());
    SortMembers(Keys(es), KeyOrder());
  }

  lemma SortedTextAt(es: seq<Entry>, i: nat)
    requires DistinctKeys(es) && i < |es|
    ensures |SortedTexts(es)| == |es|
    ensures |Sort(Keys(es), KeyOrder())| == |es|
    ensures var key := Sort(Keys(es), KeyOrder())[i];
            HasKey(es, key) && SortedTexts(es)[i] == Quote(key) + ":" + Print(es[IndexOf(es, key)].value)
  {
    hide Sort, Write, Canon, Quote, IndexOf, ByKey, KeyOrder;
    CanonEntryAt(es, i);
  }

  method WriteValue(w: Output, v: Value)
    requires WellFormed(v)
    modifies w
    ensures w.text == old(w.text) + Print(v)
    decreases v
  {
    hide Escape, EscapeAll, Digits, Join, Sort;
    match v
    case Null => w.text := w.text + "null";
    case Bool(b) => w.text := w.text + if b then "true" else "false";
    case Num(n) => w.text := w.text + Decimal(n);
    case Str(s) => WriteString(w, s);
    case Arr(_) => WriteItems(w, v);
    case Obj(_) => WriteEntries(w, v);
  }

  method WriteItems(w: Output, v: Value)
    requires v.Arr? && WellFormed(v)
    modifies w
    ensures w.text == old(w.text) + Print(v)
    decreases v, 0
  {
    hide Join, Write;
    ghost var texts := ItemTexts(Canon(v).items);
    WriteArray(Canon(v).items);
    JoinNothing(texts[..0]);
    w.text := w.text + "[";
    for i := 0 to |v.items|
      invariant w.text == old(w.text) + "[" + Join(texts[..i])
    {
      JoinPrefix(texts, i);
      if i > 0 {
        w.text := w.text + ",";
      }
      WriteValue(w, v.items[i]);
    }
    assert texts[..|texts|] == texts;
    w.text := w.text + "]";
  }

  method WriteEntries(w: Output, v: Value)
    requires v.Obj? && WellFormed(v)
    modifies w
    ensures w.text == old(w.text) + Print(v)
    decreases v, 1
  {
    hide Join, Print, Sort, KeyOrder, SortedTexts, Keys;
    var keys := Sort(Keys(v.entries), KeyOrder());
    ghost var texts := SortedTexts(v.entries);
    PrintObject(v.entries);
    JoinNothing(texts[..0]);
    SortedTextCount(v.entries);
    w.text := w.text + "{";
    ghost var before := w.text;
    for i := 0 to |keys|
      invariant w.text == before + Join(texts[..i])
    {
      JoinPrefix(texts, i);
      WriteEntry(w, v, keys, i);
    }
    assert texts[..|texts|] == texts;
    w.text := w.text + "}";
  }

  method WriteEntry(w: Output, v: Value, keys: seq<string>, i: nat)
    requires v.Obj? && WellFormed(v) && keys == Sort(Keys(v.entries), KeyOrder()) && i < |keys| == |v.entries|
    modifies w
    ensures |SortedTexts(v.entries)| == |v.entries|
    ensures w.text == old(w.text) + ((if i > 0 then "," else "") + SortedTexts(v.entries)[i])
    decreases v, 0
  {
    hide Print, Sort, Quote, KeyOrder, IndexOf, SortedTexts, Keys;
    SortedTextAt(v.entries, i);
    if i > 0 {
      w.text := w.text + ",";
    }
    WriteString(w, keys[i]);
    w.text := w.text + ":";
    WriteValue(w, v.entries[IndexOf(v.entries, keys[i])].value);
  }

  /** The text of a value. */
  method ToCanonicalJson(v: Value) returns (text: string)
    requires WellFormed(v)
    ensures text == Print(v)
  {
    hide Print;
    var w := new Output();
    WriteValue(w, v);
    text := w.text;
  }
}
