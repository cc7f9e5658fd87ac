/** Package identifiers and signed messages as text, and reading them back. */
module Identifiers {
  import opened Wrappers
  import Text

  datatype PackageId = PackageId(ecosystem: string, name: string, version: string)

  function Canonical(id: PackageId): string { id.ecosystem + ":" + id.name + "@" + id.version }

  // ----- splitting at the first and at the last separator

  datatype Split = Split(before: string, after: string)

  function First(s: string, c: char): (r: Option<Split>)
    ensures r.None? <==> c !in s
    ensures r.Some? ==> s == r.value.before + [c] + r.value.after && c !in r.value.before
  {
    if s == [] then None
    else if s[0] == c then Some(Split([], s[1..]))
    else
      match First(s[1..], c)
      case None => None
      case Some(p) => Some(Split([s[0]] + p.before, p.after))
  }

  function Last(s: string, c: char): (r: Option<Split>)
    ensures r.None? <==> c !in s
    ensures r.Some? ==> s == r.value.before + [c] + r.value.after && c !in r.value.after
  {
    if s == [] then None
    else
      var n := |s| - 1;
      if s[n] == c then Some(Split(s[..n], []))
      else
        match Last(s[..n], c)
        case None => None
        case Some(p) => Some(Split(p.before, p.after + [s[n]]))
  }

  lemma FirstPlace(a: string, b: string, a': string, b': string, c: char)
    requires a + [c] + b == a' + [c] + b' && c !in a && c !in a'
    ensures a == a' && b == b'
  {
    var s := a + [c] + b;
    assert s[|a|] == c && s[|a'|] == c;
    assert forall i :: 0 <= i < |a| ==> s[i] == a[i];
    assert forall i :: 0 <= i < |a'| ==> s[i] == a'[i];
    assert |a| == |a'|;
    assert a == s[..|a|] && b == s[|a| + 1..] && a' == s[..|a|] && b' == s[|a| + 1..];
  }

  lemma LastPlace(a: string, b: string, a': string, b': string, c: char)
    requires a + [c] + b == a' + [c] + b' && c !in b && c !in b'
    ensures a == a' && b == b'
  {
    var s := a + [c] + b;
    assert s[|a|] == c && s[|a'|] == c;
    assert forall i :: |a| < i < |s| ==> s[i] == b[i - |a| - 1];
    assert forall i :: |a'| < i < |s| ==> s[i] == b'[i - |a'| - 1];
    assert |a| == |a'|;
    assert a == s[..|a|] && b == s[|a| + 1..] && a' == s[..|a|] && b' == s[|a| + 1..];
  }

  lemma FirstUnique(a: string, b: string, c: char)
    requires c !in a
    ensures First(a + [c] + b, c) == Some(Split(a, b))
  {
    hide First;
    var s := a + [c] + b;
    assert s[|a|] == c;
    var p := First(s, c).value;
    FirstPlace(p.before, p.after, a, b, c);
  }

  lemma LastUnique(a: string, b: string, c: char)
    requires c !in b
    ensures Last(a + [c] + b, c) == Some(Split(a, b))
  {
    hide Last;
    var s := a + [c] + b;
    assert s[|a|] == c;
    var p := Last(s, c).value;
    LastPlace(p.before, p.after, a, b, c);
  }

  // ----- package identifiers

  datatype Failure = NoEcosystem | NoVersion

  function PackageIdFromSession(s: string): Result<PackageId, Failure> {
    match First(s, ':')
    case None => Err(NoEcosystem)
    case Some(p) =>
      match Last(p.after, '@')
      case None => Err(NoVersion)
      case Some(q) => Ok(PackageId(p.before, q.before, q.after))
  }

  /** A text is refused exactly when it has no colon, or no at sign after its first colon. */
  lemma RefusedExactlyWhen(s: string)
    ensures PackageIdFromSession(s) == Err(NoEcosystem) <==> ':' !in s
    ensures PackageIdFromSession(s) == Err(NoVersion) <==>
            exists i :: 0 <= i < |s| && s[i] == ':' && ':' !in s[..i] && '@' !in s[i + 1..]
  {
    hide First, Last;
    if ':' in s {
      var p := First(s, ':').value;
      var k := |p.before|;
      assert s[k] == ':' && s[..k] == p.before && s[k + 1..] == p.after;
      forall i | 0 <= i < |s| && s[i] == ':' && ':' !in s[..i] ensures i == k {
        assert s == s[..i] + [':'] + s[i + 1..];
        FirstPlace(s[..i], s[i + 1..], p.before, p.after, ':');
      }
    }
  }

  /** Printing undoes parsing, for every text. */
  lemma PrintUndoesParse(s: string)
    ensures PackageIdFromSession(s).Ok? ==> Canonical(PackageIdFromSession(s).value) == s
  {
    hide First, Last;
    if PackageIdFromSession(s).Ok? {
      var id := PackageIdFromSession(s).value;
      assert Canonical(id) == id.ecosystem + [':'] + (id.name + ['@'] + id.version);
    }
  }

  /** Parsing undoes printing exactly for the ids whose ecosystem has no colon and whose version has no
      at sign; the name may have both. */
  lemma ParseUndoesPrintExactlyWhen(id: PackageId)
    ensures PackageIdFromSession(Canonical(id)) == Ok(id) <==> ':' !in id.ecosystem && '@' !in id.version
  {
    hide First, Last;
    var rest := id.name + ['@'] + id.version;
    assert Canonical(id) == id.ecosystem + [':'] + rest;
    if ':' !in id.ecosystem && '@' !in id.version {
      FirstUnique(id.ecosystem, rest, ':');
      LastUnique(id.name, id.version, '@');
    }
  }

  // ----- the message a validator signs

  const DOMAIN := "creg-vote-v2"

  datatype VoteMessage = VoteMessage(
    canonical: string, contentHash: string, approved: bool, pubkey: string, profile: string, evidence: string)

  function BoolText(b: bool): string { if b then "true" else "false" }

  /** The fields as they are joined by bars. */
  function Fields(m: VoteMessage): seq<string> {
    [DOMAIN + "|" + m.canonical, m.contentHash, BoolText(m.approved), m.pubkey, m.profile, m.evidence]
  }

  function MessageText(m: VoteMessage): string {
    DOMAIN + "|" + m.canonical + "|" + m.contentHash + "|" + BoolText(m.approved) + "|" + m.pubkey + "|" + m.profile
    + "|" + m.evidence
  }

  function Joined(fields: seq<string>): string
    requires fields != []
  {
    var n := |fields| - 1;
    if n == 0 then fields[0] else Joined(fields[..n]) + "|" + fields[n]
  }

  /** Split off n fields, each at the last bar. */
  function Unjoin(s: string, n: nat): (r: Option<seq<string>>)
    ensures r.Some? ==> |r.value| == n + 1 && Joined(r.value) == s && forall i :: 1 <= i <= n ==> '|' !in r.value[i]
    decreases n
  {
    if n == 0 then Some([s])
    else
      match Last(s, '|')
      case None => None
      case Some(p) =>
        match Unjoin(p.before, n - 1)
        case None => None
        case Some(fields) =>
          assert (fields + [p.after])[..n] == fields;
          Some(fields + [p.after])
  }

  predicate TailBarless(fields: seq<string>) { forall i :: 1 <= i < |fields| ==> '|' !in fields[i] }

  lemma {:induction false} UnjoinJoined(fields: seq<string>)
    requires fields != [] && TailBarless(fields)
    ensures Unjoin(Joined(fields), |fields| - 1) == Some(fields)
  {
    hide Last, Joined;
    var n := |fields| - 1;
    JoinedStep(fields);
    if n > 0 {
      UnjoinJoined(fields[..n]);
      LastUnique(Joined(fields[..n]), fields[n], '|');
      assert fields == fields[..n] + [fields[n]];
    } else {
      assert fields == [fields[0]];
    }
  }

  lemma JoinedStep(fields: seq<string>)
    requires fields != []
    ensures |fields| == 1 ==> Joined(fields) == fields[0]
    ensures |fields| > 1 ==> Joined(fields) == Joined(fields[..|fields| - 1]) + ['|'] + fields[|fields| - 1]
  {
  }

  /** Splitting undoes joining exactly when no field but the first has a bar. */
  lemma UnjoinExactlyWhen(fields: seq<string>)
    requires fields != []
    ensures Unjoin(Joined(fields), |fields| - 1) == Some(fields) <==> TailBarless(fields)
  {
    hide Unjoin, Joined;
    if TailBarless(fields) { UnjoinJoined(fields); }
  }

  lemma TextJoinsFields(m: VoteMessage)
    ensures MessageText(m) == Joined(Fields(m))
  {
    hide BoolText;
    var f := Fields(m);
    assert f[..5] == [f[0], f[1], f[2], f[3], f[4]];
    assert f[..5][..4] == [f[0], f[1], f[2], f[3]];
    assert f[..5][..4][..3] == [f[0], f[1], f[2]];
    assert f[..5][..4][..3][..2] == [f[0], f[1]];
    assert f[..5][..4][..3][..2][..1] == [f[0]];
    assert Joined([f[0]]) == f[0];
    assert Joined([f[0], f[1]]) == f[0] + "|" + f[1];
    assert Joined([f[0], f[1], f[2]]) == f[0] + "|" + f[1] + "|" + f[2];
    assert Joined([f[0], f[1], f[2], f[3]]) == f[0] + "|" + f[1] + "|" + f[2] + "|" + f[3];
  }

  function ReadMessage(s: string): Option<VoteMessage> {
    match Unjoin(s, 5)
    case None => None
    case Some(f) =>
      if DOMAIN + "|" <= f[0] && (f[2] == "true" || f[2] == "false")
      then Some(VoteMessage(f[0][|DOMAIN| + 1..], f[1], f[2] == "true", f[3], f[4], f[5]))
      else None
  }

  /** No bar in the fields after the package name. */
  predicate Barless(m: VoteMessage) {
    '|' !in m.contentHash && '|' !in m.pubkey && '|' !in m.profile && '|' !in m.evidence
  }

  /** A signed message gives back all its fields exactly when none after the package name has a bar. */
  lemma ReadsBackExactlyWhenBarless(m: VoteMessage)
    ensures ReadMessage(MessageText(m)) == Some(m) <==> Barless(m)
  {
    hide Unjoin, Joined, MessageText;
    var f := Fields(m);
    TextJoinsFields(m);
    UnjoinExactlyWhen(f);
    assert '|' !in f[2];
    if Barless(m) {
      assert f[0][|DOMAIN| + 1..] == m.canonical;
    }
    if ReadMessage(MessageText(m)) == Some(m) {
      var g := Unjoin(MessageText(m), 5).value;
      assert g[1] == f[1] && g[3] == f[3] && g[4] == f[4] && g[5] == f[5];
    }
  }

  lemma MessageDomain(m: VoteMessage)
    ensures "creg-vote-v2|" <= MessageText(m)
  {
    var rest := m.canonical + "|" + m.contentHash + "|" + BoolText(m.approved) + "|" + m.pubkey + "|" + m.profile
                + "|" + m.evidence;
    assert MessageText(m) == "creg-vote-v2|" + rest;
  }

  /** So one message cannot stand for two votes, nor for anything outside its domain. */
  lemma MessageDeterminesVote(m: VoteMessage, m': VoteMessage)
    requires Barless(m) && Barless(m') && MessageText(m) == MessageText(m')
    ensures m == m' && "creg-vote-v2|" <= MessageText(m)
  {
    hide ReadMessage, MessageText;
    MessageDomain(m);
    ReadsBackExactlyWhenBarless(m);
    ReadsBackExactlyWhenBarless(m');
  }

  // ----- the message a publisher signs

  function CanonicalAddress(address: string): string {
    var trimmed := Text.Trim(address);
    if trimmed == "" then ""
    else "0x" + Text.Lower(if "0x" <= trimmed then trimmed[2..] else trimmed)
  }

  lemma TrimFixes(s: string)
    requires s == "" || (!Text.IsWhitespace(s[0]) && !Text.IsWhitespace(s[|s| - 1]))
    ensures Text.Trim(s) == s
  {
  }

  lemma LowerTwice(s: string)
    ensures Text.Lower(Text.Lower(s)) == Text.Lower(s)
  {
  }

  /** The canonical form of an address is its own canonical form. */
  lemma CanonicalAddressSettles(address: string)
    ensures CanonicalAddress(CanonicalAddress(address)) == CanonicalAddress(address)
  {
    hide Text.IsWhitespace, Text.Trim, Text.Lower, Text.TrimEnd, Text.TrimStart;
    var trimmed := Text.Trim(address);
    var a := CanonicalAddress(address);
    if trimmed == "" {
      TrimFixes("");
    } else {
      var body := if "0x" <= trimmed then trimmed[2..] else trimmed;
      assert a == "0x" + Text.Lower(body);
      LastNotBlank(address);
      TrimFixes(a);
      assert a[2..] == Text.Lower(body);
      LowerTwice(body);
    }
  }

  lemma LastNotBlank(address: string)
    requires Text.Trim(address) != ""
    ensures var a := CanonicalAddress(address);
            a != "" && !Text.IsWhitespace(a[0]) && !Text.IsWhitespace(a[|a| - 1])
  {
    var trimmed := Text.Trim(address);
    var body := if "0x" <= trimmed then trimmed[2..] else trimmed;
    var a := CanonicalAddress(address);
    assert a == "0x" + Text.Lower(body);
    if body != "" {
      assert body[|body| - 1] == trimmed[|trimmed| - 1];
      assert a[|a| - 1] == Text.LowerChar(trimmed[|trimmed| - 1]);
    } else {
      assert a[|a| - 1] == 'x';
    }
  }

  /** A blank address stays blank; any other is "0x" and the address as given, without surrounding space and
      one "0x", in lower case. */
  lemma CanonicalAddressMeans(address: string)
    ensures var (a, t) := (CanonicalAddress(address), Text.Trim(address));
            && (a == "" <==> Text.Blank(address))
            && (a != "" ==> "0x" <= a && Text.SameText(a[2..], if "0x" <= t then t[2..] else t))
            && (forall i :: 0 <= i < |a| ==> !('A' <= a[i] <= 'Z'))
  {
    hide Text.Trim, Text.Lower, Text.Blank, Text.SameText;
    var _, _ := Text.TrimMeans(address);
    var t := Text.Trim(address);
    var body := if "0x" <= t then t[2..] else t;
    Text.LowerExactlyWhenSame(body, body);
    Text.LowerExactlyWhenSame(Text.Lower(body), body);
    assert Text.SameText(Text.Lower(body), body) by { SameTextSymmetric(body, Text.Lower(body)); }
    if t != "" { assert CanonicalAddress(address)[2..] == Text.Lower(body); }
  }

  lemma SameTextSymmetric(a: string, b: string)
    requires Text.SameText(a, b)
    ensures Text.SameText(b, a)
  {
  }

  function PublishMessage(id: PackageId, contentHash: string, address: string): string {
    Canonical(id) + contentHash + CanonicalAddress(address)
  }

  predicate WellFormed(id: PackageId) { ':' !in id.ecosystem && '@' !in id.version }

  /** Equal messages come from the same package, hash and address exactly when their hashes are of one
      length and so are their canonical addresses; the parts have no separator. */
  lemma PublishMessageDeterminesExactlyWhen(
    id: PackageId, hash: string, address: string, id': PackageId, hash': string, address': string)
    requires WellFormed(id) && WellFormed(id')
    requires PublishMessage(id, hash, address) == PublishMessage(id', hash', address')
    ensures id == id' && hash == hash' && CanonicalAddress(address) == CanonicalAddress(address') <==>
            |hash| == |hash'| && |CanonicalAddress(address)| == |CanonicalAddress(address')|
  {
    hide CanonicalAddress, Canonical, PackageIdFromSession;
    var (a, a') := (CanonicalAddress(address), CanonicalAddress(address'));
    var (c, c') := (Canonical(id), Canonical(id'));
    var s := PublishMessage(id, hash, address);
    if |hash| == |hash'| && |a| == |a'| {
      assert |c| == |c'| && c == s[..|c|] && c' == s[..|c|];
      assert hash == s[|c|..|c| + |hash|] && hash' == s[|c|..|c| + |hash|];
      assert a == s[|c| + |hash|..] && a' == s[|c| + |hash|..];
      ParseUndoesPrintExactlyWhen(id);
      ParseUndoesPrintExactlyWhen(id');
    }
  }

  /** Without that the boundary can move from the version into the hash. */
  lemma PublishMessageMoves(id: PackageId, c: char, hash: string, address: string)
    ensures PublishMessage(id.(version := id.version + [c]), hash, address) == PublishMessage(id, [c] + hash, address)
  {
    hide CanonicalAddress;
    assert id.version + [c] + hash == id.version + ([c] + hash);
  }
}
