/**
  The helpers behind the random values of the gadget routes: the success
  probability shown by GET /gadgets, the codename given by POST /gadgets and
  the confirmation code of the self-destruct route, plus the list of valid
  status strings.

  `Math.random()` is an injected parameter: an exact real in [0, 1).
  `Math.floor` is Dafny's `.Floor` on reals.
*/
module GadgetHelpers {

  /** One value of `Math.random()`. */
  type Draw = r: real | 0.0 <= r < 1.0

  /** The fixed pool codenames are drawn from. */
  const Codenames: seq<string> := ["The Nightingale", "The Kraken", "Shadow Blade", "Ghost"]

  /** The four statuses a list filter may name. */
  const ValidStatuses: seq<string> := ["Available", "Deployed", "Destroyed", "Decommissioned"]

  /** `validStatuses.includes(s)`: exact, case-sensitive string equality. */
  predicate IsValidStatus(s: string)
    ensures IsValidStatus(s) <==> exists i :: 0 <= i < |ValidStatuses| && ValidStatuses[i] == s
    // a valid status is never the empty string, so a valid filter is always a filter
    ensures IsValidStatus(s) ==> s != ""
  {
    s in ValidStatuses
  }

  lemma ValidStatusesAreFourDistinct()
    ensures |ValidStatuses| == 4
    ensures forall i, j :: 0 <= i < j < |ValidStatuses| ==> ValidStatuses[i] != ValidStatuses[j]
  {
  }

  lemma IsValidStatusExactly(s: string)
    ensures IsValidStatus(s) <==>
      s == "Available" || s == "Deployed" || s == "Destroyed" || s == "Decommissioned"
  {
  }

  /** Membership is case-sensitive: lower-case spellings are not valid statuses. */
  lemma IsValidStatusCaseSensitive()
    ensures !IsValidStatus("available") && !IsValidStatus("AVAILABLE")
    ensures !IsValidStatus("deployed") && !IsValidStatus("destroyed") && !IsValidStatus("decommissioned")
    ensures !IsValidStatus("")
  {
  }

  /** `Math.floor(Math.random() * 101)`. */
  function RandomProbability(r: Draw): (p: int)
    ensures 0 <= p <= 100
  {
    (r * 101.0).Floor
  }

  /** Every probability in [0, 100] is produced by some draw. */
  lemma RandomProbabilityReaches(k: int)
    requires 0 <= k <= 100
    ensures exists r: Draw :: RandomProbability(r) == k
  {
    var r: Draw := k as real / 101.0;
    assert r * 101.0 == k as real;
    assert RandomProbability(r) == k;
  }

  /** `Math.floor(Math.random() * codenames.length)`: always a valid index. */
  function CodenameIndex(r: Draw): (i: int)
    ensures 0 <= i < |Codenames|
  {
    (r * |Codenames| as real).Floor
  }

  /** `generateRandomCodenames()`. */
  function RandomCodename(r: Draw): (name: string)
    ensures name in Codenames
    ensures name == "The Nightingale" || name == "The Kraken" || name == "Shadow Blade" || name == "Ghost"
  {
    Codenames[CodenameIndex(r)]
  }

  /** Every codename of the pool is produced by some draw. */
  lemma RandomCodenameReaches(i: int)
    requires 0 <= i < |Codenames|
    ensures exists r: Draw :: RandomCodename(r) == Codenames[i]
  {
    var r: Draw := i as real / 4.0;
    assert r * 4.0 == i as real;
    assert CodenameIndex(r) == i;
    assert RandomCodename(r) == Codenames[i];
  }

  /** `Math.floor(100000 + Math.random() * 900000)`. */
  function ConfirmationCode(r: Draw): (c: int)
    ensures 100000 <= c <= 999999
  {
    (100000.0 + r * 900000.0).Floor
  }

  /** Every six-digit code is produced by some draw. */
  lemma ConfirmationCodeReaches(c: int)
    requires 100000 <= c <= 999999
    ensures exists r: Draw :: ConfirmationCode(r) == c
  {
    var r: Draw := (c - 100000) as real / 900000.0;
    assert 100000.0 + r * 900000.0 == c as real;
    assert ConfirmationCode(r) == c;
  }

  /** Number of decimal digits of n. */
  function DigitCount(n: nat): nat {
    if n < 10 then 1 else 1 + DigitCount(n / 10)
  }

  function Pow10(k: nat): (p: nat)
    ensures p >= 1
  {
    if k == 0 then 1 else 10 * Pow10(k - 1)
  }

  /** A number in [10^(k-1), 10^k) has exactly k digits. */
  lemma {:induction false} DigitCountOfRange(n: nat, k: nat)
    requires 1 <= k && Pow10(k - 1) <= n < Pow10(k)
    ensures DigitCount(n) == k
  {
    if k > 1 {
      assert Pow10(k - 1) == 10 * Pow10(k - 2);
      assert n >= 10;
      DigitCountOfRange(n / 10, k - 1);
    }
  }

  /** The confirmation code is always written with six digits. */
  lemma ConfirmationCodeHasSixDigits(r: Draw)
    ensures DigitCount(ConfirmationCode(r)) == 6
  {
    assert Pow10(5) == 100000 && Pow10(6) == 1000000;
    DigitCountOfRange(ConfirmationCode(r), 6);
  }

}
