/** The penalty court: members collect strikes, every `threshold` strikes
    make one penalty, and paid penalties are counted off. */
module Penalties {
  import opened Wrappers
  import opened Text
  import opened AppTypes
  import opened GroupState
  import Arith

  function Strikes(m: GroupMember): int {
    m.strikes.GetOr(0)
  }

  function Paid(m: GroupMember): int {
    m.penaltiesPaid.GetOr(0)
  }

  /** `Math.floor(a / b)` on integers, for either sign of b. */
  function FloorDiv(a: int, b: int): (q: int)
    requires b != 0
    ensures b > 0 ==> q * b <= a < q * b + b
    ensures b < 0 ==> q * b + b < a <= q * b
  {
    if b > 0 then a / b else (-a) / (-b)
  }

  /** `totalPenalties - paid`. A rule's threshold is never 0 (see
      `ThresholdFromInput`). */
  function PendingPenalties(m: GroupMember, threshold: int): int
    requires threshold != 0
  {
    FloorDiv(Strikes(m), threshold) - Paid(m)
  }

  /** The "Pay 1" button is offered when `pending > 0`. Were the threshold 0,
      `strikes / 0` would be +Infinity for positive strikes (so pending is
      positive) and NaN or -Infinity otherwise (so it is not). */
  predicate PayOffered(m: GroupMember, threshold: int) {
    if threshold == 0 then Strikes(m) > 0 else PendingPenalties(m, threshold) > 0
  }

  /** The "-" button: one strike less, but never below zero. */
  function StrikeDown(m: GroupMember): (p: MemberPatch)
    ensures p.strikes.Some? && p.strikes.value >= 0
    ensures p.strikes.value == if Strikes(m) > 0 then Strikes(m) - 1 else 0
    ensures p.displayName.None? && p.avatar.None? && p.penaltiesPaid.None?
  {
    MemberPatch(None, None, Some(if 0 > Strikes(m) - 1 then 0 else Strikes(m) - 1), None)
  }

  /** The "+" button. */
  function StrikeUp(m: GroupMember): MemberPatch {
    MemberPatch(None, None, Some(Strikes(m) + 1), None)
  }

  /** The "Pay 1" button. */
  function PayOne(m: GroupMember): MemberPatch {
    MemberPatch(None, None, None, Some(Paid(m) + 1))
  }

  /** Paying settles exactly one pending penalty, and a payment that was
      offered under a positive threshold never leaves the member owing a
      negative number. */
  lemma PayReducesPending(m: GroupMember, threshold: int)
    requires threshold != 0
    ensures PendingPenalties(ApplyPatch(m, PayOne(m)), threshold) == PendingPenalties(m, threshold) - 1
    ensures PayOffered(m, threshold) ==> PendingPenalties(ApplyPatch(m, PayOne(m)), threshold) >= 0
  {
    var m' := ApplyPatch(m, PayOne(m));
    assert Strikes(m') == Strikes(m) && Paid(m') == Paid(m) + 1;
  }

  /** Under a positive threshold a new strike never lowers what is owed, and
      it adds one penalty exactly when it completes a multiple of the
      threshold. */
  lemma StrikeUpPending(m: GroupMember, threshold: int)
    requires threshold > 0 && Strikes(m) >= 0
    ensures var m' := ApplyPatch(m, StrikeUp(m));
      PendingPenalties(m', threshold) ==
        PendingPenalties(m, threshold) + (if (Strikes(m) + 1) % threshold == 0 then 1 else 0)
  {
    var m' := ApplyPatch(m, StrikeUp(m));
    var s := Strikes(m);
    assert Strikes(m') == s + 1 && Paid(m') == Paid(m);
    var q := s / threshold;
    var r := s % threshold;
    assert s == q * threshold + r && 0 <= r < threshold;
    if r + 1 == threshold {
      Arith.DivModUnique(s + 1, threshold, q + 1, 0);
    } else {
      Arith.DivModUnique(s + 1, threshold, q, r + 1);
    }
  }

  /** `parseInt(input) || 3`, where `parsed` is what `parseInt` makes of
      the threshold field (None for NaN): NaN and 0 fall back to 3. */
  function ThresholdFromInput(parsed: Option<int>): (t: int)
    ensures t != 0
    ensures parsed.Some? && parsed.value != 0 ==> t == parsed.value
    ensures parsed.None? || parsed.value == 0 ==> t == 3
  {
    if parsed.None? || parsed.value == 0 then 3 else parsed.value
  }

  /** The settings form's penalty rule: none when the description is blank. */
  function RuleFromForm(parsedThreshold: Option<int>, description: string): (r: Option<PenaltyConfig>)
    ensures r.None? <==> IsBlank(description)
    ensures r.Some? ==> r.value.threshold != 0 && r.value.description == description
  {
    if IsBlank(description) then None
    else Some(PenaltyConfig(ThresholdFromInput(parsedThreshold), description))
  }
}
