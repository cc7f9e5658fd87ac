/** Social recovery: splitting a private key into guardian shares and putting it back together. */
module Shamir {
  import opened Wrappers
  import opened Gf256
  import opened Polynomials
  import Hex
  import Text

  type u8 = n: int | 0 <= n < 256

  datatype Share = Share(index: Byte, guardian: string, data: string, total: u8, threshold: u8)

  datatype Failure =
    | InvalidHex
    | TooManyGuardians
    | ThresholdTooSmall
    | ThresholdTooLarge
    | NoShares
    | TooFewShares
    | ShareTooShort  // indexing past the end of a share's bytes

  /** The random source: the coefficient drawn for a byte position and a power. */
  type Draws = (nat, nat) -> Byte

  // ----- splitting

  /** The polynomial of one secret byte: the byte itself, then random coefficients. */
  function Coefficients(secret: Byte, position: nat, threshold: nat, draws: Draws): (cs: seq<Byte>)
    ensures |cs| == threshold
    ensures threshold > 0 ==> cs[0] == secret
  {
    seq(threshold, (j: nat) => if j == 0 then secret else draws(position, j))
  }

  function ShareBytes(secret: seq<Byte>, threshold: nat, draws: Draws, x: Byte): (bs: seq<Byte>)
    ensures |bs| == |secret|
  {
    seq(|secret|, b requires 0 <= b < |secret| => Eval(Coefficients(secret[b], b, threshold, draws), x))
  }

  function ShareOf(secret: seq<Byte>, guardians: seq<string>, threshold: u8, draws: Draws, i: nat): Share
    requires i < |guardians| < 256
  {
    Share(OfNat(i + 1), guardians[i], Hex.Encode(ShareBytes(secret, threshold, draws, OfNat(i + 1))),
          |guardians|, threshold)
  }

  function Splitting(key: string, guardians: seq<string>, threshold: u8, draws: Draws): Result<seq<Share>, Failure> {
    var secret := Hex.Decode(Text.Trim(key));
    if secret.None? then Err(InvalidHex)
    else if |guardians| > 255 then Err(TooManyGuardians)
    else if threshold < 2 then Err(ThresholdTooSmall)
    else if threshold > |guardians| then Err(ThresholdTooLarge)
    else Ok(seq(|guardians|, i requires 0 <= i < |guardians| =>
      ShareOf(secret.value, guardians, threshold, draws, i)))
  }

  /** Horner's rule turned round: a running power of `x`. */
  method EvalPoly(coeffs: seq<Byte>, x: Byte) returns (result: Byte)
    ensures result == Eval(coeffs, x)
  {
    hide Add, Mul;
    result := ZERO;
    var power := ONE;
    AddLaws(ZERO, Eval(coeffs, x), ZERO);
    AddLaws(Eval(coeffs, x), ZERO, ZERO);
    MulOne(Eval(coeffs, x));
    assert coeffs[0..] == coeffs;
    for i := 0 to |coeffs|
      invariant Add(result, Mul(power, Eval(coeffs[i..], x))) == Eval(coeffs, x)
    {
      var tail := Eval(coeffs[i + 1..], x);
      assert coeffs[i..][0] == coeffs[i] && coeffs[i..][1..] == coeffs[i + 1..];
      var term := Multiply(coeffs[i], power);
      DistributeRight(power, coeffs[i], Mul(x, tail));
      Commute(power, coeffs[i]);
      Associate(power, x, tail);
      AddLaws(result, term, Mul(Mul(power, x), tail));
      result := Add(result, term);
      power := Multiply(power, x);
    }
    MulZero(power);
    AddLaws(result, ZERO, ZERO);
  }

  lemma SplittingAnswers(key: string, guardians: seq<string>, threshold: u8, draws: Draws)
    ensures var (r, hex) := (Splitting(key, guardians, threshold, draws), Hex.IsHex(Text.Trim(key)));
      && (r.Ok? <==> hex && |guardians| <= 255 && 2 <= threshold <= |guardians|)
      && (r == Err(InvalidHex) <==> !hex)
      && (r == Err(TooManyGuardians) <==> hex && |guardians| > 255)
      && (r == Err(ThresholdTooSmall) <==> hex && |guardians| <= 255 && threshold < 2)
      && (r.Ok? ==> |r.value| == |guardians| && forall i :: 0 <= i < |guardians| ==>
            && Value(r.value[i].index) == i + 1 && r.value[i].guardian == guardians[i]
            && r.value[i].total == |guardians| && r.value[i].threshold == threshold
            && |r.value[i].data| == |Text.Trim(key)|)
  {
    hide Hex.Decode, Hex.Encode, Hex.IsHex, Text.Trim, OfNat, Value, ShareBytes;
    Hex.DecodesExactlyWhen(Text.Trim(key));
    var r := Splitting(key, guardians, threshold, draws);
    if r.Ok? {
      forall i | 0 <= i < |guardians| ensures Value(r.value[i].index) == i + 1 { ValueOfNat(i + 1); }
    }
  }

  method Split(key: string, guardians: seq<string>, threshold: u8, draws: Draws)
    returns (r: Result<seq<Share>, Failure>)
    ensures r == Splitting(key, guardians, threshold, draws)
    ensures r.Ok? <==> Hex.IsHex(Text.Trim(key)) && |guardians| <= 255 && 2 <= threshold <= |guardians|
    ensures r.Ok? ==> |r.value| == |guardians| && forall i :: 0 <= i < |guardians| ==>
      && Value(r.value[i].index) == i + 1 && r.value[i].guardian == guardians[i]
      && r.value[i].total == |guardians| && r.value[i].threshold == threshold
      && |r.value[i].data| == |Text.Trim(key)|
    ensures r == Err(InvalidHex) <==> !Hex.IsHex(Text.Trim(key))
    ensures r == Err(TooManyGuardians) <==> Hex.IsHex(Text.Trim(key)) && |guardians| > 255
    ensures r == Err(ThresholdTooSmall) <==> Hex.IsHex(Text.Trim(key)) && |guardians| <= 255 && threshold < 2
  {
    hide Hex.Decode, Hex.Encode, Hex.IsHex, Text.Trim, OfNat, Eval;
    SplittingAnswers(key, guardians, threshold, draws);
    var decoded := Hex.Decode(Text.Trim(key));
    if decoded.None? { return Err(InvalidHex); }
    var secret := decoded.value;
    if |guardians| > 255 { return Err(TooManyGuardians); }
    var n := |guardians|;
    if threshold < 2 { return Err(ThresholdTooSmall); }
    if threshold > n { return Err(ThresholdTooLarge); }
    var shares: seq<seq<Byte>> := seq(n, i => []);
    for b := 0 to |secret|
      invariant |shares| == n
      invariant forall i :: 0 <= i < n ==> shares[i] == ShareBytes(secret, threshold, draws, OfNat(i + 1))[..b]
    {
      var coeffs := [secret[b]];
      for j := 1 to threshold
        invariant |coeffs| == j
        invariant forall k :: 0 <= k < j ==> coeffs[k] == if k == 0 then secret[b] else draws(b, k)
      {
        coeffs := coeffs + [draws(b, j)];
      }
      assert coeffs == Coefficients(secret[b], b, threshold, draws);
      for i := 0 to n
        invariant |shares| == n
        invariant forall k :: 0 <= k < n ==>
          shares[k] == ShareBytes(secret, threshold, draws, OfNat(k + 1))[..if k < i then b + 1 else b]
      {
        var y := EvalPoly(coeffs, OfNat(i + 1));
        shares := shares[i := shares[i] + [y]];
      }
    }
    forall i | 0 <= i < n ensures shares[i] == ShareBytes(secret, threshold, draws, OfNat(i + 1)) {
      var bytes := ShareBytes(secret, threshold, draws, OfNat(i + 1));
      assert bytes[..|secret|] == bytes;
    }
    var result := seq(n, i requires 0 <= i < n =>
      Share(OfNat(i + 1), guardians[i], Hex.Encode(shares[i]), n, threshold));
    assert result == Splitting(key, guardians, threshold, draws).value;
    return Ok(result);
  }

  // ----- reconstructing

  predicate AllHex(shares: seq<Share>) {
    forall i :: 0 <= i < |shares| ==> Hex.Decode(shares[i].data).Some?
  }

  function Data(share: Share): seq<Byte>
    requires Hex.Decode(share.data).Some?
  {
    Hex.Decode(share.data).value
  }

  function Indices(shares: seq<Share>): (xs: seq<Byte>)
    ensures |xs| == |shares|
  {
    seq(|shares|, i requires 0 <= i < |shares| => shares[i].index)
  }

  predicate LongEnough(shares: seq<Share>, n: nat)
    requires AllHex(shares)
  {
    forall i :: 0 <= i < |shares| ==> |Data(shares[i])| >= n
  }

  /** The bytes of all shares at one position. */
  function Column(shares: seq<Share>, b: nat): (ys: seq<Byte>)
    requires AllHex(shares) && LongEnough(shares, b + 1)
    ensures |ys| == |shares|
  {
    seq(|shares|, i requires 0 <= i < |shares| => Data(shares[i])[b])
  }

  function Recovered(shares: seq<Share>, n: nat): (bs: seq<Byte>)
    requires AllHex(shares) && LongEnough(shares, n)
    ensures |bs| == n
  {
    seq(n, b requires 0 <= b < n => Lagrange(Indices(shares), Column(shares, b), ZERO, |shares|))
  }

  function Reconstruction(shares: seq<Share>): Result<string, Failure> {
    if shares == [] then Err(NoShares) else
    var t := shares[0].threshold;
    if |shares| < t then Err(TooFewShares)
    else if !AllHex(shares) then Err(InvalidHex)
    else
      var n := |Data(shares[0])|;
      if !LongEnough(shares[..t], n) then Err(ShareTooShort)
      else Ok(Hex.Encode(Recovered(shares[..t], n)))
  }

  method LagrangeAt(xs: seq<Byte>, ys: seq<Byte>, x: Byte) returns (result: Byte)
    requires |xs| == |ys|
    ensures result == Lagrange(xs, ys, x, |xs|)
  {
    hide Add, Mul, Inv;
    result := ZERO;
    var k := |xs|;
    for i := 0 to k
      invariant result == Lagrange(xs, ys, x, i)
    {
      var numerator, denominator := ONE, ONE;
      for j := 0 to k
        invariant numerator == Product(xs, i, x, j)
        invariant denominator == Product(xs, i, xs[i], j)
      {
        if i == j { continue; }
        numerator := Multiply(numerator, Add(x, xs[j]));
        denominator := Multiply(denominator, Add(xs[i], xs[j]));
      }
      var inverse := Invert(denominator);
      var basis := Multiply(numerator, inverse);
      var term := Multiply(ys[i], basis);
      result := Add(result, term);
    }
  }

  method Reconstruct(shares: seq<Share>) returns (r: Result<string, Failure>)
    ensures r == Reconstruction(shares)
    ensures r.Ok? <==>
      && shares != [] && |shares| >= shares[0].threshold
      && (forall i :: 0 <= i < |shares| ==> Hex.IsHex(shares[i].data))
      && (forall i :: 0 <= i < shares[0].threshold ==> |shares[i].data| >= |shares[0].data|)
    ensures r.Ok? ==> |r.value| == |shares[0].data|
    ensures r == Err(NoShares) <==> shares == []
    ensures r == Err(TooFewShares) <==> shares != [] && |shares| < shares[0].threshold
    ensures r == Err(InvalidHex) <==>
      && shares != [] && |shares| >= shares[0].threshold
      && exists i :: 0 <= i < |shares| && !Hex.IsHex(shares[i].data)
  {
    hide Hex.Decode, Hex.Encode, Hex.IsHex, Lagrange;
    forall i | 0 <= i < |shares| { Hex.DecodesExactlyWhen(shares[i].data); }
    if shares == [] { return Err(NoShares); }
    var t := shares[0].threshold;
    if |shares| < t { return Err(TooFewShares); }
    for i := 0 to |shares|
      invariant AllHex(shares[..i])
    {
      if Hex.Decode(shares[i].data).None? { return Err(InvalidHex); }
      assert shares[..i + 1] == shares[..i] + [shares[i]];
    }
    assert shares[..|shares|] == shares;
    var used := shares[..t];
    var n := |Data(shares[0])|;
    var secret := [];
    for b := 0 to n
      invariant LongEnough(used, b)
      invariant secret == Recovered(used, b)
    {
      if !LongEnough(used, b + 1) { return Err(ShareTooShort); }
      var y := LagrangeAt(Indices(used), Column(used, b), ZERO);
      secret := secret + [y];
    }
    return Ok(Hex.Encode(secret));
  }

  // ----- any threshold of the shares gives the key back

  /** `share` carries the secret's polynomials evaluated at its own index. */
  ghost predicate Carries(share: Share, secret: seq<Byte>, threshold: u8, draws: Draws) {
    && share.threshold == threshold
    && Hex.Decode(share.data) == Some(ShareBytes(secret, threshold, draws, share.index))
  }

  lemma ShareCarries(secret: seq<Byte>, guardians: seq<string>, threshold: u8, draws: Draws, i: nat)
    requires i < |guardians| < 256
    ensures Carries(ShareOf(secret, guardians, threshold, draws, i), secret, threshold, draws)
  {
    hide Hex.Decode, Hex.Encode, OfNat, ShareBytes;
    Hex.DecodeEncode(ShareBytes(secret, threshold, draws, OfNat(i + 1)));
  }

  lemma RecoversByte(used: seq<Share>, secret: seq<Byte>, threshold: u8, draws: Draws, b: nat)
    requires |used| == threshold >= 1 && b < |secret|
    requires forall i :: 0 <= i < |used| ==> Carries(used[i], secret, threshold, draws)
    requires Distinct(Indices(used))
    ensures AllHex(used) && LongEnough(used, b + 1)
    ensures Lagrange(Indices(used), Column(used, b), ZERO, |used|) == secret[b]
  {
    hide Hex.Decode, Eval, Lagrange;
    var cs := Coefficients(secret[b], b, threshold, draws);
    assert Through(cs, Indices(used), Column(used, b));
    Interpolation(Indices(used), Column(used, b), cs, ZERO);
    EvalAtZero(cs);
  }

  lemma RecoversSecret(picked: seq<Share>, secret: seq<Byte>, threshold: u8, draws: Draws)
    requires 1 <= threshold <= |picked|
    requires forall i :: 0 <= i < |picked| ==> Carries(picked[i], secret, threshold, draws)
    requires Distinct(Indices(picked[..threshold]))
    ensures Reconstruction(picked) == Ok(Hex.Encode(secret))
  {
    hide Hex.Decode, Hex.Encode, Lagrange;
    var used := picked[..threshold];
    forall b | 0 <= b < |secret|
      ensures Recovered(used, |secret|)[b] == secret[b]
    {
      RecoversByte(used, secret, threshold, draws, b);
    }
    assert Recovered(used, |secret|) == secret;
  }

  /** Whatever the key, the random draws, the guardians and the threshold, any list of at least
      `threshold` shares of one split gives the key back, if the first `threshold` differ in index. */
  lemma RoundTrip(key: string, guardians: seq<string>, threshold: u8, draws: Draws, picked: seq<Share>)
    requires Splitting(key, guardians, threshold, draws).Ok?
    requires forall i :: 0 <= i < |picked| ==> picked[i] in Splitting(key, guardians, threshold, draws).value
    requires |picked| >= threshold && Distinct(Indices(picked[..threshold]))
    ensures Reconstruction(picked) == Ok(Text.Lower(Text.Trim(key)))
  {
    hide Hex.Decode, Hex.Encode, Text.Trim, OfNat, Carries, Reconstruction, ShareOf;
    var secret := Hex.Decode(Text.Trim(key)).value;
    var shares := Splitting(key, guardians, threshold, draws).value;
    forall i | 0 <= i < |picked| ensures Carries(picked[i], secret, threshold, draws) {
      var k :| 0 <= k < |shares| && shares[k] == picked[i];
      ShareCarries(secret, guardians, threshold, draws, k);
    }
    RecoversSecret(picked, secret, threshold, draws);
    Hex.EncodeDecode(Text.Trim(key));
  }

  /** The shares of one split have nonzero, pairwise different indices. */
  lemma SplitIndices(key: string, guardians: seq<string>, threshold: u8, draws: Draws)
    requires Splitting(key, guardians, threshold, draws).Ok?
    ensures var xs := Indices(Splitting(key, guardians, threshold, draws).value);
            Distinct(xs) && ZERO !in xs
  {
    hide Hex.Decode, Hex.Encode, Text.Trim, OfNat, Value, ShareBytes;
    var xs := Indices(Splitting(key, guardians, threshold, draws).value);
    forall i | 0 <= i < |xs| ensures Value(xs[i]) == i + 1 {
      ValueOfNat(i + 1);
    }
    ZeroValue();
  }

  lemma ZeroValue()
    ensures Value(ZERO) == 0
  {
  }

  // ----- the distinctness of the indices is exactly what reconstruction needs

  /** The values of a polynomial at the given points. */
  function Values(cs: seq<Byte>, xs: seq<Byte>): (ys: seq<Byte>)
    ensures |ys| == |xs|
  {
    seq(|xs|, i requires 0 <= i < |xs| => Eval(cs, xs[i]))
  }

  /** Interpolating at zero through these points returns the secret byte of every polynomial. */
  ghost predicate AlwaysRecovers(xs: seq<Byte>) {
    forall cs :: |cs| == |xs| ==> cs != [] && Lagrange(xs, Values(cs, xs), ZERO, |xs|) == cs[0]
  }

  function Dedup(xs: seq<Byte>): (ds: seq<Byte>)
    ensures forall x :: x in ds <==> x in xs
    ensures Distinct(ds)
    ensures |ds| <= |xs|
    ensures !Distinct(xs) ==> |ds| < |xs|
  {
    if xs == [] then []
    else
      var rest := Dedup(xs[1..]);
      if xs[0] in xs[1..] then rest
      else [xs[0]] + rest
  }

  lemma {:induction false} EvalPadded(cs: seq<Byte>, n: nat, x: Byte)
    ensures Eval(cs + Constant(ZERO, n), x) == Eval(cs, x)
  {
    hide Add, Mul;
    if cs != [] {
      assert (cs + Constant(ZERO, n))[1..] == cs[1..] + Constant(ZERO, n);
      EvalPadded(cs[1..], n, x);
    } else {
      assert cs + Constant(ZERO, n) == Constant(ZERO, n);
      if n > 0 {
        assert Constant(ZERO, n)[1..] == [] + Constant(ZERO, n - 1);
        EvalPadded([], n - 1, x);
        MulZero(x);
        AddLaws(ZERO, ZERO, ZERO);
      }
    }
  }

  lemma {:induction false} LagrangeZeros(xs: seq<Byte>, ys: seq<Byte>, x: Byte, n: nat)
    requires n <= |xs| == |ys| && forall i :: 0 <= i < n ==> ys[i] == ZERO
    ensures Lagrange(xs, ys, x, n) == ZERO
  {
    hide Add, Mul, Basis;
    if n > 0 {
      LagrangeZeros(xs, ys, x, n - 1);
      MulZero(Basis(xs, n - 1, x));
      AddLaws(ZERO, ZERO, ZERO);
    }
  }

  /** A polynomial that is one at zero and vanishes at the given points. */
  lemma Vanishing(ds: seq<Byte>) returns (cs: seq<Byte>)
    requires Distinct(ds) && ZERO !in ds
    ensures |cs| == |ds| + 1 && cs[0] == ONE
    ensures forall i :: 0 <= i < |ds| ==> Eval(cs, ds[i]) == ZERO
  {
    hide Eval, Interpolant;
    var (xs, ys) := ([ZERO] + ds, [ONE] + Constant(ZERO, |ds|));
    assert Distinct(xs);
    cs := Interpolant(xs, ys);
    InterpolantThrough(xs, ys);
    forall i | 0 <= i < |ds| ensures Eval(cs, ds[i]) == ZERO {
      assert xs[i + 1] == ds[i] && ys[i + 1] == ZERO;
    }
    assert xs[0] == ZERO && ys[0] == ONE;
    EvalAtZero(cs);
  }

  /** With a repeated index some polynomial vanishes at every point and not at zero. */
  lemma RepeatedIndexFails(xs: seq<Byte>) returns (cs: seq<Byte>)
    requires xs != [] && ZERO !in xs && !Distinct(xs)
    ensures |cs| == |xs| && cs[0] == ONE
    ensures Lagrange(xs, Values(cs, xs), ZERO, |xs|) == ZERO
  {
    hide Eval, Lagrange, Dedup;
    var short := Vanishing(Dedup(xs));
    var n := |xs| - |short|;
    cs := short + Constant(ZERO, n);
    forall i | 0 <= i < |xs| ensures Values(cs, xs)[i] == ZERO {
      assert xs[i] in Dedup(xs);
      EvalPadded(short, n, xs[i]);
    }
    LagrangeZeros(xs, Values(cs, xs), ZERO, |xs|);
  }

  lemma RecoversExactlyWhenDistinct(xs: seq<Byte>)
    requires xs != [] && ZERO !in xs
    ensures AlwaysRecovers(xs) <==> Distinct(xs)
  {
    hide Eval, Lagrange;
    if Distinct(xs) {
      forall cs | |cs| == |xs| ensures Lagrange(xs, Values(cs, xs), ZERO, |xs|) == cs[0] {
        assert Through(cs, xs, Values(cs, xs));
        Interpolation(xs, Values(cs, xs), cs, ZERO);
        EvalAtZero(cs);
      }
    } else {
      var cs := RepeatedIndexFails(xs);
      assert ZERO != ONE;
      assert |cs| == |xs|;
    }
  }

  // ----- one share fewer says nothing

  /** The points below the threshold, with the secret's own point in front. */
  lemma ExactlyOnePolynomial(xs: seq<Byte>, ys: seq<Byte>, secret: Byte) returns (cs: seq<Byte>)
    requires Distinct(xs) && ZERO !in xs && |xs| == |ys|
    ensures |cs| == |xs| + 1 && cs[0] == secret && Through(cs, xs, ys)
    ensures forall ds :: |ds| == |xs| + 1 && ds[0] == secret && Through(ds, xs, ys) ==> ds == cs
  {
    hide Eval, Interpolant;
    var (xs', ys') := ([ZERO] + xs, [secret] + ys);
    cs := Interpolant(xs', ys');
    InterpolantThrough(xs', ys');
    EvalAtZero(cs);
    assert Eval(cs, xs'[0]) == ys'[0];
    forall i | 0 <= i < |xs| ensures Eval(cs, xs[i]) == ys[i] {
      assert Eval(cs, xs'[i + 1]) == ys'[i + 1];
    }
    forall ds | |ds| == |xs| + 1 && ds[0] == secret && Through(ds, xs, ys) ensures ds == cs {
      EvalAtZero(ds);
      assert Through(ds, xs', ys');
      Unique(xs', ys', cs, ds);
    }
  }

  /** For every other secret of the same length there are draws under which the same guardians, one
      fewer than the threshold, hold the very same bytes. */
  lemma SharesHideSecret(secret: seq<Byte>, other: seq<Byte>, threshold: nat, draws: Draws, xs: seq<Byte>)
    returns (draws': Draws)
    requires |secret| == |other| && threshold == |xs| + 1
    requires Distinct(xs) && ZERO !in xs
    ensures forall i :: 0 <= i < |xs| ==>
      ShareBytes(other, threshold, draws', xs[i]) == ShareBytes(secret, threshold, draws, xs[i])
  {
    hide Eval, Interpolant;
    var table: seq<seq<Byte>> := [];
    for b := 0 to |secret|
      invariant |table| == b
      invariant forall k :: 0 <= k < b ==> |table[k]| == threshold && table[k][0] == other[k]
      invariant forall k :: 0 <= k < b ==>
        Through(table[k], xs, Values(Coefficients(secret[k], k, threshold, draws), xs))
    {
      var cs := ExactlyOnePolynomial(xs, Values(Coefficients(secret[b], b, threshold, draws), xs), other[b]);
      table := table + [cs];
    }
    draws' := (b: nat, j: nat) => if b < |table| && j < |table[b]| then table[b][j] else ZERO;
    forall i, b | 0 <= i < |xs| && 0 <= b < |secret|
      ensures ShareBytes(other, threshold, draws', xs[i])[b] == ShareBytes(secret, threshold, draws, xs[i])[b]
    {
      assert Coefficients(other[b], b, threshold, draws') == table[b];
    }
  }
}
