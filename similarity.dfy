/**
 * The near-duplicate page detector of similarity.py: an exact hash of the
 * normalised text, then a 64-entry min-hash signature over the page's
 * 3-word shingles compared against every signature accepted so far.
 */
module Similarity {
  import opened Text

  /** Words per shingle. */
  const K: nat := 3
  /** Entries in a signature. */
  const N: nat := 64
  /** Band values are the hash reduced modulo 2^32. */
  const Modulus: nat := 0x1_0000_0000
  /** Two pages are near-duplicates when this fraction of positions agree. */
  const Threshold: real := 0.8

  /** A SHA-256 digest, as the integer its hex spelling denotes. */
  type Digest = nat
  type Signature = seq<nat>

  /** Strip, lower-case, then replace each whitespace run by a single space. */
  function Normalize(text: string): (norm: string)
    ensures norm == [] <==> forall i :: 0 <= i < |text| ==> IsSpace(text[i])
  {
    Collapse(LowerStr(Strip(text)))
  }

  function DigitChar(d: nat): char
    requires d < 10
  {
    ('0' as int + d) as char
  }

  /** `str(n)`: the decimal spelling of `n`. */
  function Decimal(n: nat): string {
    if n < 10 then [DigitChar(n)] else Decimal(n / 10) + [DigitChar(n % 10)]
  }

  /** `" ".join(words[i : i + K])`. */
  function Window(words: seq<string>, i: int): string
    requires 0 <= i && i + K <= |words|
  {
    JoinSpace(words[i..i + K])
  }

  /** Every contiguous window of K words, joined by single spaces. */
  function Shingles(words: seq<string>): set<string> {
    set i | 0 <= i < |words| - K + 1 :: Window(words, i)
  }

  /** The band-`band` hash of a shingle: SHA-256 of `str(band) + shingle`, mod 2^32. */
  function BandValue(sha256: string -> Digest, band: nat, shingle: string): (v: nat)
    ensures v < Modulus
  {
    sha256(Decimal(band) + shingle) % Modulus
  }

  ghost function BandValues(sha256: string -> Digest, band: nat, shingles: set<string>): (values: set<nat>)
    ensures forall s :: s in shingles ==> BandValue(sha256, band, s) in values
    ensures shingles != {} ==> values != {}
  {
    set s | s in shingles :: BandValue(sha256, band, s)
  }

  ghost predicate IsLeast(m: nat, values: set<nat>) {
    m in values && forall v :: v in values ==> m <= v
  }

  lemma {:induction false} LeastExists(values: set<nat>)
    requires values != {}
    ensures exists m :: IsLeast(m, values)
    decreases |values|
  {
    var x :| x in values;
    if values != {x} {
      var rest := values - {x};
      LeastExists(rest);
      var m :| IsLeast(m, rest);
      assert forall v :: v in values ==> v == x || v in rest;
      if x < m {
        assert IsLeast(x, values);
      } else {
        assert IsLeast(m, values);
      }
    } else {
      assert IsLeast(x, values);
    }
  }

  ghost function Least(values: set<nat>): (m: nat)
    requires values != {}
    ensures IsLeast(m, values)
  {
    LeastExists(values);
    var m :| IsLeast(m, values);
    m
  }

  /**
   * The page's signature: entry `band` is the least band-`band` value over
   * all shingles.
   */
  ghost function MinHashSignature(sha256: string -> Digest, shingles: set<string>): (sig: Signature)
    requires shingles != {}
    ensures |sig| == N
    ensures forall band :: 0 <= band < N ==> IsLeast(sig[band], BandValues(sha256, band, shingles))
  {
    seq(N, band requires 0 <= band < N => Least(BandValues(sha256, band, shingles)))
  }

  /**
   * Entry `band` of a signature lies in [0, 2^32) and is the least band hash
   * of some shingle of the page.
   */
  lemma SignatureEntry(sha256: string -> Digest, shingles: set<string>, band: nat)
    requires shingles != {} && band < N
    ensures var sig := MinHashSignature(sha256, shingles);
      && sig[band] < Modulus
      && (exists s :: s in shingles && sig[band] == BandValue(sha256, band, s))
      && (forall s :: s in shingles ==> sig[band] <= BandValue(sha256, band, s))
  {
    var sig := MinHashSignature(sha256, shingles);
    assert sig[band] in BandValues(sha256, band, shingles);
  }

  /** Positions below `n` at which `a` and `b` agree. */
  function AgreeBelow(a: Signature, b: Signature, n: nat): (same: nat)
    requires n <= |a| && n <= |b|
    ensures same <= n
  {
    if n == 0 then 0 else AgreeBelow(a, b, n - 1) + (if a[n - 1] == b[n - 1] then 1 else 0)
  }

  /** Agreeing positions of `zip(a, b)`. */
  function Agreements(a: Signature, b: Signature): (same: nat)
    ensures same <= |a| && same <= |b|
  {
    AgreeBelow(a, b, if |a| <= |b| then |a| else |b|)
  }

  /** `same / N >= THRESHOLD`, in exact arithmetic. */
  predicate Near(a: Signature, b: Signature) {
    (Agreements(a, b) as real) / (N as real) >= Threshold
  }

  predicate HasSignatureShape(sig: Signature) {
    |sig| == N && forall i :: 0 <= i < |sig| ==> sig[i] < Modulus
  }

  /** The process-wide record of accepted content: `seen_hashes` and `seen_sigs`. */
  datatype SeenIndex = SeenIndex(hashes: set<Digest>, sigs: seq<Signature>)

  /** What `is_duplicate_page` answers, and the index it leaves behind. */
  datatype Decision = Decision(duplicate: bool, after: SeenIndex)

  /**
   * The index holds well-shaped signatures only, and never more signatures
   * than hashes (each signature is registered with a hash not seen before).
   */
  ghost predicate WellFormed(idx: SeenIndex) {
    |idx.sigs| <= |idx.hashes|
    && forall j :: 0 <= j < |idx.sigs| ==> HasSignatureShape(idx.sigs[j])
  }

  /** Some accepted signature agrees with `sig` on enough positions. */
  ghost predicate NearAny(sig: Signature, sigs: seq<Signature>) {
    exists j :: 0 <= j < |sigs| && Near(sig, sigs[j])
  }

  /** `is_duplicate_page` as a function of the index before the call. */
  ghost function Check(sha256: string -> Digest, idx: SeenIndex, text: string): (d: Decision)
    ensures d.duplicate ==> d.after == idx
    ensures idx.hashes <= d.after.hashes && idx.sigs <= d.after.sigs
  {
    Decide(sha256, idx, Normalize(text))
  }

  /** The decision once the text is normalised. */
  ghost function Decide(sha256: string -> Digest, idx: SeenIndex, norm: string): Decision {
    if norm == [] then Decision(false, idx)
    else
      var h := sha256(norm);
      if h in idx.hashes then Decision(true, idx)
      else
        var shingles := Shingles(Tokens(norm));
        if shingles == {} then Decision(false, idx.(hashes := idx.hashes + {h}))
        else
          var sig := MinHashSignature(sha256, shingles);
          if NearAny(sig, idx.sigs) then Decision(true, idx)
          else Decision(false, SeenIndex(idx.hashes + {h}, idx.sigs + [sig]))
  }

  // ---------------------------------------------------------------------------
  // Loops of is_duplicate_page
  // ---------------------------------------------------------------------------

  method BuildShingles(words: seq<string>) returns (shingles: set<string>)
    ensures shingles == Shingles(words)
  {
    shingles := {};
    var i := 0;
    while i < |words| - K + 1
      invariant 0 <= i
      invariant i <= |words| - K + 1 || i == 0
      invariant shingles == set j | 0 <= j < i :: Window(words, j)
    {
      shingles := shingles + {Window(words, i)};
      i := i + 1;
    }
  }

  method ComputeSignature(sha256: string -> Digest, shingles: set<string>) returns (sig: Signature)
    requires shingles != {}
    ensures sig == MinHashSignature(sha256, shingles)
  {
    ghost var spec := MinHashSignature(sha256, shingles);
    sig := [];
    var band := 0;
    while band < N
      invariant 0 <= band <= N && |sig| == band
      invariant forall k :: 0 <= k < band ==> sig[k] == spec[k]
    {
      var best: int := -1;
      ghost var argBest: string := "";
      var rest := shingles;
      while rest != {}
        invariant rest <= shingles
        invariant best < 0 <==> rest == shingles
        invariant best >= 0 ==> argBest in shingles - rest && best == BandValue(sha256, band, argBest)
        invariant forall s :: s in shingles - rest ==> best <= BandValue(sha256, band, s)
        decreases |rest|
      {
        var s :| s in rest;
        var v := sha256(Decimal(band) + s) % Modulus;
        if best < 0 || v < best {
          best, argBest := v, s;
        }
        rest := rest - {s};
      }
      sig := sig + [best];
      band := band + 1;
    }
  }

  /** The scan over the accepted signatures: stops at the first one that is near. */
  method FindNear(sig: Signature, sigs: seq<Signature>) returns (near: bool)
    ensures near <==> NearAny(sig, sigs)
  {
    var j := 0;
    while j < |sigs|
      invariant 0 <= j <= |sigs|
      invariant forall k :: 0 <= k < j ==> !Near(sig, sigs[k])
    {
      var same := CountAgreements(sig, sigs[j]);
      NearIff(sig, sigs[j]);
      if 5 * same >= 4 * N {
        return true;
      }
      j := j + 1;
    }
    return false;
  }

  method CountAgreements(a: Signature, b: Signature) returns (same: nat)
    ensures same == Agreements(a, b)
  {
    var n := if |a| <= |b| then |a| else |b|;
    same := 0;
    var i := 0;
    while i < n
      invariant 0 <= i <= n
      invariant same == AgreeBelow(a, b, i)
    {
      if a[i] == b[i] {
        same := same + 1;
      }
      i := i + 1;
    }
  }

  // ---------------------------------------------------------------------------
  // The module-level state of similarity.py
  // ---------------------------------------------------------------------------

  class Detector {
    /** SHA-256 of a string's UTF-8 encoding; the digest itself is not modelled. */
    const sha256: string -> Digest
    var seenHashes: set<Digest>
    var seenSigs: seq<Signature>

    function Index(): SeenIndex
      reads this
    {
      SeenIndex(seenHashes, seenSigs)
    }

    ghost predicate Valid()
      reads this
    {
      WellFormed(Index())
    }

    constructor (sha256: string -> Digest)
      ensures this.sha256 == sha256
      ensures Index() == SeenIndex({}, []) && Valid()
    {
      this.sha256 := sha256;
      seenHashes := {};
      seenSigs := [];
    }

    /**
     * True when `text` is an exact or near duplicate of accepted content;
     * otherwise registers its hash (and signature, when it has shingles).
     */
    method IsDuplicatePage(text: string) returns (duplicate: bool)
      requires Valid()
      modifies this
      ensures Valid()
      ensures Decision(duplicate, Index()) == Check(sha256, old(Index()), text)
      ensures duplicate ==> seenHashes == old(seenHashes) && seenSigs == old(seenSigs)
    {
      CheckPreservesWellFormed(sha256, Index(), text);
      if text == [] {
        return false;
      }
      var norm := Normalize(text);
      if norm == [] {
        return false;
      }
      var h := sha256(norm);
      if h in seenHashes {
        return true;
      }
      var words := Tokens(norm);
      var shingles := BuildShingles(words);
      if shingles == {} {
        seenHashes := seenHashes + {h};
        return false;
      }
      var sig := ComputeSignature(sha256, shingles);
      var near := FindNear(sig, seenSigs);
      if near {
        return true;
      }
      seenHashes := seenHashes + {h};
      seenSigs := seenSigs + [sig];
      return false;
    }
  }

  // ---------------------------------------------------------------------------
  // Lemmas
  // ---------------------------------------------------------------------------

  /** The float test `same / 64 >= 0.8` is the integer test `5 * same >= 4 * 64`, i.e. 52 of 64. */
  lemma NearIff(a: Signature, b: Signature)
    ensures Near(a, b) <==> 5 * Agreements(a, b) >= 4 * N
    ensures Near(a, b) <==> Agreements(a, b) >= 52
  {
    var same := Agreements(a, b);
    assert (same as real) / (N as real) == (same as real) / 64.0;
  }

  /**
   * Normalising is the same as lower-casing, splitting on whitespace and
   * joining with single spaces: only case and the extent of whitespace runs
   * are forgotten.
   */
  lemma NormalizeAsFields(text: string)
    ensures Normalize(text) == JoinSpace(Fields(LowerStr(text)))
  {
    var l := LowerStr(text);
    var st := Strip(l);
    StripLower(text);
    assert Normalize(text) == Collapse(st);
    CollapseStripped(st);
    FieldsStrip(l);
  }

  /** Texts with the same lower-cased words get the same answer and the same new index. */
  lemma SameWordsSameDecision(sha256: string -> Digest, idx: SeenIndex, a: string, b: string)
    requires Fields(LowerStr(a)) == Fields(LowerStr(b))
    ensures Check(sha256, idx, a) == Check(sha256, idx, b)
  {
    NormalizeAsFields(a);
    NormalizeAsFields(b);
    assert Normalize(a) == Normalize(b);
  }

  /** Empty or whitespace-only text is not a duplicate and is not registered. */
  lemma BlankIsNeutral(sha256: string -> Digest, idx: SeenIndex, text: string)
    requires forall i :: 0 <= i < |text| ==> IsSpace(text[i])
    ensures Check(sha256, idx, text) == Decision(false, idx)
  {
  }

  /**
   * Once a text has been registered, any text with the same words up to
   * case and whitespace is reported as a duplicate.
   */
  lemma RegisteredThenDuplicate(sha256: string -> Digest, idx: SeenIndex, a: string, b: string)
    requires exists i :: 0 <= i < |a| && !IsSpace(a[i])
    requires !Check(sha256, idx, a).duplicate
    requires Fields(LowerStr(a)) == Fields(LowerStr(b))
    ensures Check(sha256, Check(sha256, idx, a).after, b).duplicate
  {
    SameWordsSameDecision(sha256, Check(sha256, idx, a).after, a, b);
    RepeatIsDuplicate(sha256, idx, a);
  }

  /** Asking twice about the same non-blank text gets "duplicate" the second time. */
  lemma RepeatIsDuplicate(sha256: string -> Digest, idx: SeenIndex, text: string)
    requires exists i :: 0 <= i < |text| && !IsSpace(text[i])
    ensures Check(sha256, Check(sha256, idx, text).after, text).duplicate
  {
    var d := Check(sha256, idx, text);
    var norm := Normalize(text);
    var h := sha256(norm);
    if h !in idx.hashes {
      var shingles := Shingles(Tokens(norm));
      if shingles != {} {
        var sig := MinHashSignature(sha256, shingles);
        if NearAny(sig, idx.sigs) {
          var j :| 0 <= j < |idx.sigs| && Near(sig, idx.sigs[j]);
          assert NearAny(sig, d.after.sigs);
        }
      }
    }
  }

  lemma ShinglesEmptyIff(words: seq<string>)
    ensures Shingles(words) == {} <==> |words| < K
  {
    if |words| >= K {
      assert Window(words, 0) in Shingles(words);
    }
  }

  /** A text of fewer than K words has no shingles: only its hash is registered. */
  lemma FewWordsRegisterHashOnly(sha256: string -> Digest, idx: SeenIndex, text: string)
    requires Normalize(text) != []
    requires sha256(Normalize(text)) !in idx.hashes
    requires |Tokens(Normalize(text))| < K
    ensures Check(sha256, idx, text) == Decision(false, SeenIndex(idx.hashes + {sha256(Normalize(text))}, idx.sigs))
  {
    ShinglesEmptyIff(Tokens(Normalize(text)));
  }

  /**
   * On the signature path the answer is "duplicate" exactly when some
   * accepted signature agrees in at least 52 of the 64 positions; a novel
   * page appends its signature as the last entry and adds its hash.
   */
  lemma SignaturePath(sha256: string -> Digest, idx: SeenIndex, text: string)
    requires Normalize(text) != []
    requires sha256(Normalize(text)) !in idx.hashes
    requires Shingles(Tokens(Normalize(text))) != {}
    ensures var sig := MinHashSignature(sha256, Shingles(Tokens(Normalize(text))));
      var d := Check(sha256, idx, text);
      && (d.duplicate <==> exists j :: 0 <= j < |idx.sigs| && Agreements(sig, idx.sigs[j]) >= 52)
      && (!d.duplicate ==> d.after == SeenIndex(idx.hashes + {sha256(Normalize(text))}, idx.sigs + [sig]))
  {
    var sig := MinHashSignature(sha256, Shingles(Tokens(Normalize(text))));
    forall j | 0 <= j < |idx.sigs| {
      NearIff(sig, idx.sigs[j]);
    }
  }

  /** Each call keeps the index well formed. */
  lemma CheckPreservesWellFormed(sha256: string -> Digest, idx: SeenIndex, text: string)
    requires WellFormed(idx)
    ensures WellFormed(Check(sha256, idx, text).after)
  {
    var norm := Normalize(text);
    if norm != [] {
      var h := sha256(norm);
      if h !in idx.hashes {
        assert |idx.hashes + {h}| == |idx.hashes| + 1;
      }
    }
  }

  lemma {:induction false} AgreeBelowSelf(a: Signature, n: nat)
    requires n <= |a|
    ensures AgreeBelow(a, a, n) == n
  {
    if n > 0 {
      AgreeBelowSelf(a, n - 1);
    }
  }

  /**
   * A signature agrees with itself everywhere, so it is always its own
   * near-duplicate: a sanity check on the threshold, which a page whose
   * signature is already stored can never escape.
   */
  lemma SelfIsNear(a: Signature)
    requires |a| == N
    ensures Agreements(a, a) == N && Near(a, a)
  {
    AgreeBelowSelf(a, |a|);
    NearIff(a, a);
  }

  lemma {:induction false} AgreeBelowCountsPositions(a: Signature, b: Signature, n: nat)
    requires n <= |a| && n <= |b|
    ensures AgreeBelow(a, b, n) == |set i | 0 <= i < n && a[i] == b[i]|
  {
    if n > 0 {
      AgreeBelowCountsPositions(a, b, n - 1);
      var below := set i | 0 <= i < n - 1 && a[i] == b[i];
      var upto := set i | 0 <= i < n && a[i] == b[i];
      if a[n - 1] == b[n - 1] {
        assert upto == below + {n - 1};
      } else {
        assert upto == below;
      }
    }
  }

  /**
   * The count of agreeing positions, against an independent definition as
   * the size of the set of agreeing positions of `zip(a, b)`.
   */
  lemma AgreementsCountsPositions(a: Signature, b: Signature)
    ensures Agreements(a, b) == |set i | 0 <= i < |a| && i < |b| && a[i] == b[i]|
  {
    var n := if |a| <= |b| then |a| else |b|;
    AgreeBelowCountsPositions(a, b, n);
    assert (set i | 0 <= i < |a| && i < |b| && a[i] == b[i]) == (set i | 0 <= i < n && a[i] == b[i]);
  }
}
