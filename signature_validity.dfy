/**
 A model of the light-client verification circuit of the XRPL zk-bridge: the
 circuit checks 90 committee signatures over one message and asserts that at
 least 80% of them verified. The curve, hash and signature gadgets and the
 constraint-system API are opaque collaborators; what is modelled is the
 running count of successful verifications, the threshold and the final
 less-or-equal assertion.
 */
module SignatureValidity {

  /** A circuit variable. Field elements are modelled as mathematical integers. */
  type Field = int

  /** Number of committee members (the length of the circuit's key and signature arrays). */
  const CommitteeSize: nat := 90

  /** Number of slots of the running-count array: one more than the committee. */
  const CountSlots: nat := 91

  datatype Option<T> = None | Some(value: T)

  /** An error returned by a gadget constructor; its content is opaque here. */
  datatype Error = Error(description: string)

  /** A twisted Edwards point, kept as an opaque pair of coordinates. */
  datatype Point = Point(x: Field, y: Field)

  datatype PublicKey = PublicKey(a: Point)

  datatype Signature = Signature(r: Point, s: Field)

  /** The circuit's inputs, all of them public. */
  datatype Circuit = Circuit(
    curveId: nat,
    publicKeys: seq<PublicKey>,
    signatures: seq<Signature>,
    message: Field,
    zero: Field,
    one: Field)

  /** The key and signature arrays have the fixed length the circuit type gives them. */
  predicate WellFormed(c: Circuit) {
    |c.publicKeys| == CommitteeSize && |c.signatures| == CommitteeSize
  }

  /**
   The signature-verification gadget, seen from the circuit definition: for a
   signature, the message and a public key it reports whether it returned no
   error (true) or an error (false).
   */
  type Verifier = (Signature, Field, PublicKey) -> bool

  /** The gadget's verdict for every committee slot, in slot order. */
  function Verdicts(c: Circuit, verify: Verifier): seq<bool>
    requires WellFormed(c)
  {
    seq(CommitteeSize, i requires 0 <= i < CommitteeSize =>
      verify(c.signatures[i], c.message, c.publicKeys[i]))
  }

  /** The one assertion Define itself emits: lhs <= rhs. */
  datatype Constraint = LessOrEqual(lhs: Field, rhs: Field)

  /**
   What defining the circuit yields: either the error of a gadget constructor,
   or the running-count array together with the asserted comparison.
   */
  datatype Outcome =
    | Failed(error: Error)
    | Defined(validSignatures: seq<Field>, assertion: Constraint)

  /**
   The circuit was defined and the threshold assertion of Define holds.
   Constraints emitted inside the gadgets are not part of this.
   */
  predicate Satisfied(o: Outcome) {
    o.Defined? && o.assertion.lhs <= o.assertion.rhs
  }

  // ---------------------------------------------------------------------------
  // Specification of the running count

  /** Number of slots whose verification succeeded. */
  function CountValid(v: seq<bool>): (r: nat)
    ensures r <= |v|
    ensures r == |v| <==> forall i :: 0 <= i < |v| ==> v[i]
    ensures r == 0 <==> forall i :: 0 <= i < |v| ==> !v[i]
  {
    if |v| == 0 then 0
    else CountValid(v[..|v| - 1]) + (if v[|v| - 1] then 1 else 0)
  }

  /**
   counts is a running count over the verdicts v: it starts at zero and each
   slot either adds one (success) or leaves the count as it was (failure).
   */
  predicate IsRunningCount(counts: seq<Field>, zero: Field, one: Field, v: seq<bool>) {
    && |counts| == |v| + 1
    && counts[0] == zero
    && forall i :: 0 <= i < |v| ==> counts[i + 1] == counts[i] + (if v[i] then one else 0)
  }

  /** The circuit's threshold, 80% of n rounded down. */
  function Threshold(n: nat): (t: nat)
    ensures 10 * t <= 8 * n < 10 * t + 10
  {
    n * 8 / 10
  }

  /** The acceptance criterion stated on the verdicts: One * Threshold <= Zero + One * successes. */
  predicate Accepts(zero: Field, one: Field, v: seq<bool>) {
    one * Threshold(|v|) <= zero + one * CountValid(v)
  }

  // ---------------------------------------------------------------------------
  // The circuit definition

  /**
   Defines the circuit: constructs the curve and hash gadgets (whose failures
   are passed in as curveErr and hashErr), fills the running count slot by slot
   from the verification gadget's verdicts and asserts that the threshold does
   not exceed the final count.
   */
  method Define(c: Circuit, curveErr: Option<Error>, hashErr: Option<Error>, verify: Verifier)
    returns (r: Outcome)
    requires WellFormed(c)
    ensures curveErr.Some? ==> r == Failed(curveErr.value)
    ensures curveErr.None? && hashErr.Some? ==> r == Failed(hashErr.value)
    ensures curveErr.None? && hashErr.None? ==>
      && r.Defined?
      && |r.validSignatures| == CountSlots
      && IsRunningCount(r.validSignatures, c.zero, c.one, Verdicts(c, verify))
      && r.validSignatures[CommitteeSize] == c.zero + c.one * CountValid(Verdicts(c, verify))
      && r.assertion == LessOrEqual(c.one * Threshold(CommitteeSize), r.validSignatures[CommitteeSize])
      && (Satisfied(r) <==> Accepts(c.zero, c.one, Verdicts(c, verify)))
  {
    if curveErr.Some? {
      return Failed(curveErr.value);
    }
    if hashErr.Some? {
      return Failed(hashErr.value);
    }
    ghost var v := Verdicts(c, verify);
    var validSignatures := new Field[CountSlots];
    validSignatures[0] := c.zero;
    for i := 0 to |c.publicKeys|
      invariant validSignatures[0] == c.zero
      invariant forall j :: 0 <= j < i ==>
        validSignatures[j + 1] == validSignatures[j] + (if v[j] then c.one else 0)
    {
      var isValid := verify(c.signatures[i], c.message, c.publicKeys[i]);
      if isValid {
        validSignatures[i + 1] := validSignatures[i] + c.one;
      } else {
        validSignatures[i + 1] := validSignatures[i];
      }
    }
    var threshold := c.one * Threshold(|c.publicKeys|);
    r := Defined(validSignatures[..], LessOrEqual(threshold, validSignatures[|c.publicKeys|]));
    RunningCountClosedForm(r.validSignatures, c.zero, c.one, v, CommitteeSize);
    assert v[..CommitteeSize] == v;
  }

  // ---------------------------------------------------------------------------
  // Properties of the running count

  /** One step of the running count keeps the closed form Zero + One * successes. */
  lemma StepClosedForm(prev: Field, next: Field, zero: Field, one: Field, c: int, c': int, ok: bool)
    requires prev == zero + one * c
    requires next == prev + (if ok then one else 0)
    requires c' == c + (if ok then 1 else 0)
    ensures next == zero + one * c'
  {
    if ok {
      assert one * c' == one * c + one;
    }
  }

  /** Multiplying by a non-negative factor preserves order. */
  lemma MulMonotone(m: int, a: int, b: int)
    requires m >= 0 && a <= b
    ensures m * a <= m * b
  {
  }

  /** Every slot of a running count is Zero plus One times the successes so far. */
  lemma {:induction false} RunningCountClosedForm(counts: seq<Field>, zero: Field, one: Field, v: seq<bool>, i: nat)
    requires IsRunningCount(counts, zero, one, v)
    requires i <= |v|
    ensures counts[i] == zero + one * CountValid(v[..i])
  {
    if i > 0 {
      RunningCountClosedForm(counts, zero, one, v, i - 1);
      var c := CountValid(v[..i - 1]);
      assert v[..i][..i - 1] == v[..i - 1];
      assert CountValid(v[..i]) == c + (if v[i - 1] then 1 else 0);
      StepClosedForm(counts[i - 1], counts[i], zero, one, c, CountValid(v[..i]), v[i - 1]);
    }
  }

  /** With a non-negative One the running count never decreases. */
  lemma {:induction false} RunningCountMonotone(counts: seq<Field>, zero: Field, one: Field, v: seq<bool>, i: nat, j: nat)
    requires IsRunningCount(counts, zero, one, v)
    requires one >= 0
    requires i <= j <= |v|
    ensures counts[i] <= counts[j]
  {
    if i < j {
      RunningCountMonotone(counts, zero, one, v, i, j - 1);
    }
  }

  /** With Zero = 0 and One = 1, slot i holds a value in [0, i] and the count never decreases. */
  lemma UnitRunningCountBounds(counts: seq<Field>, v: seq<bool>)
    requires IsRunningCount(counts, 0, 1, v)
    ensures forall i :: 0 <= i <= |v| ==> 0 <= counts[i] <= i
    ensures forall i, j :: 0 <= i <= j <= |v| ==> counts[i] <= counts[j]
  {
    forall i | 0 <= i <= |v|
      ensures 0 <= counts[i] <= i
    {
      RunningCountClosedForm(counts, 0, 1, v, i);
    }
    forall i, j | 0 <= i <= j <= |v|
      ensures counts[i] <= counts[j]
    {
      RunningCountMonotone(counts, 0, 1, v, i, j);
    }
  }

  /** The count of successes is the multiplicity of true among the verdicts. */
  lemma {:induction false} CountValidIsMultiplicity(v: seq<bool>)
    ensures CountValid(v) == multiset(v)[true]
  {
    if |v| > 0 {
      CountValidIsMultiplicity(v[..|v| - 1]);
      assert v == v[..|v| - 1] + [v[|v| - 1]];
    }
  }

  /** A slot-wise weaker verdict sequence never has more successes. */
  lemma {:induction false} CountValidPointwise(v: seq<bool>, w: seq<bool>)
    requires |v| == |w|
    requires forall i :: 0 <= i < |v| ==> v[i] ==> w[i]
    ensures CountValid(v) <= CountValid(w)
  {
    if |v| > 0 {
      CountValidPointwise(v[..|v| - 1], w[..|w| - 1]);
    }
  }

  // ---------------------------------------------------------------------------
  // Properties of acceptance

  /** Acceptance depends only on how many slots succeeded, not on which ones. */
  lemma AcceptanceIgnoresSlotOrder(zero: Field, one: Field, v: seq<bool>, w: seq<bool>)
    requires multiset(v) == multiset(w)
    ensures |v| == |w|
    ensures Accepts(zero, one, v) <==> Accepts(zero, one, w)
  {
    assert |v| == |multiset(v)| == |multiset(w)| == |w|;
    CountValidIsMultiplicity(v);
    CountValidIsMultiplicity(w);
  }

  /** With a non-negative One, turning failed verifications into successes never turns acceptance into rejection. */
  lemma AcceptsMonotone(zero: Field, one: Field, v: seq<bool>, w: seq<bool>)
    requires one >= 0
    requires |v| == |w|
    requires forall i :: 0 <= i < |v| ==> v[i] ==> w[i]
    requires Accepts(zero, one, v)
    ensures Accepts(zero, one, w)
  {
    CountValidPointwise(v, w);
    MulMonotone(one, CountValid(v), CountValid(w));
  }

  /** With Zero = 0 and One = 1 a 90-slot committee is accepted iff at least 72 slots verified. */
  lemma UnitAcceptance(v: seq<bool>)
    requires |v| == CommitteeSize
    ensures Accepts(0, 1, v) <==> 72 <= multiset(v)[true]
  {
    CountValidIsMultiplicity(v);
  }

  /** A threshold of floor(8n/10) is met by k successes iff 8n < 10(k+1); for n a multiple of 5 that is k >= 80% of n. */
  lemma ThresholdBoundary(n: nat, k: nat)
    ensures Threshold(n) <= k <==> 8 * n < 10 * (k + 1)
    ensures n % 5 == 0 ==> (Threshold(n) <= k <==> 8 * n <= 10 * k)
  {
    FloorCompare(n, Threshold(n), k);
    if n % 5 == 0 {
      EightFifthsIsWhole(n, k);
    }
  }

  /** t = floor(8n/10) is at most k iff 8n < 10(k+1). */
  lemma FloorCompare(n: nat, t: nat, k: nat)
    requires 10 * t <= 8 * n < 10 * t + 10
    ensures t <= k <==> 8 * n < 10 * (k + 1)
  {
  }

  /** When n is a multiple of 5, 8n is a multiple of 10, so the strict bound becomes the inclusive one. */
  lemma EightFifthsIsWhole(n: nat, k: nat)
    requires n % 5 == 0
    ensures 8 * n < 10 * (k + 1) <==> 8 * n <= 10 * k
  {
    var m := 4 * (n / 5);
    assert 8 * n == 10 * m;
    assert m <= k <==> 10 * m < 10 * (k + 1);
  }

  /** Thresholds for committee sizes that are and are not multiples of ten. */
  lemma ThresholdExamples()
    ensures Threshold(CommitteeSize) == 72
    ensures Threshold(91) == 72
    ensures Threshold(10) == 8 && Threshold(9) == 7 && Threshold(1) == 0
  {
  }

  /** With One = 0 and Zero = 0 the assertion holds whatever the verdicts. */
  lemma UnitZeroAcceptsAll(v: seq<bool>)
    ensures Accepts(0, 0, v)
  {
  }

  // ---------------------------------------------------------------------------
  // Reference scenarios

  /** A committee of n whose first k members signed validly. */
  function LeadingValid(n: nat, k: nat): (v: seq<bool>)
    ensures |v| == n
  {
    seq(n, i => i < k)
  }

  lemma {:induction false} CountLeadingValid(n: nat, k: nat)
    ensures CountValid(LeadingValid(n, k)) == if k <= n then k else n
  {
    if n > 0 {
      CountLeadingValid(n - 1, k);
      assert LeadingValid(n, k)[..n - 1] == LeadingValid(n - 1, k);
    }
  }

  /** 90/90 and 72/90 are accepted; 71/90, 63/90 and 0/90 are rejected. */
  lemma ReferenceScenarios()
    ensures Accepts(0, 1, LeadingValid(CommitteeSize, 90))
    ensures Accepts(0, 1, LeadingValid(CommitteeSize, 72))
    ensures !Accepts(0, 1, LeadingValid(CommitteeSize, 71))
    ensures !Accepts(0, 1, LeadingValid(CommitteeSize, 63))
    ensures !Accepts(0, 1, LeadingValid(CommitteeSize, 0))
  {
    CountLeadingValid(CommitteeSize, 90);
    CountLeadingValid(CommitteeSize, 72);
    CountLeadingValid(CommitteeSize, 71);
    CountLeadingValid(CommitteeSize, 63);
    CountLeadingValid(CommitteeSize, 0);
  }
}
