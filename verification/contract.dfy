/** The pure fragments of `PredictorContract` in `pdr_utils/contract.py`: the fixed-width
    string encoding of `string_to_bytes32`, the recovery-id normalisation of the auth
    signature, and how many purchases `buy_many` attempts. */
module Contract {

  /** Python's `s.ljust(width, fill)`: `s` itself when it is already `width` long or
      longer, otherwise `s` followed by as many `fill` characters as it takes. */
  function LJust(s: string, width: nat, fill: char): (r: string)
    ensures |r| == if |s| >= width then |s| else width
    ensures s <= r
    ensures forall i :: |s| <= i < |r| ==> r[i] == fill
  {
    if |s| >= width then s else s + seq(width - |s|, _ => fill)
  }

  /** `string_to_bytes32`: cut to 32 characters, or pad on the right with '0' up to 32.
      Characters stand for bytes here: for ASCII text the two agree. */
  function StringToBytes32(data: string): (r: string)
    ensures |r| == 32
    ensures |data| > 32 ==> r == data[..32]
    ensures |data| <= 32 ==> data <= r && forall i :: |data| <= i < 32 ==> r[i] == '0'
  {
    if |data| > 32 then data[..32] else LJust(data, 32, '0')
  }

  /** A 32-character input comes back unchanged, so the encoding is idempotent. */
  lemma StringToBytes32Idempotent(data: string)
    ensures |data| == 32 ==> StringToBytes32(data) == data
    ensures StringToBytes32(StringToBytes32(data)) == StringToBytes32(data)
  {
  }

  /** Right-padding with '0' is not reversible: an input and the same input with a trailing
      '0' encode alike, so the encoding is not injective. */
  lemma StringToBytes32PaddingAmbiguous(data: string)
    requires |data| < 32
    ensures StringToBytes32(data + "0") == StringToBytes32(data)
  {
  }

  /** The `v` field of `get_auth_signature`: a recovery id of 0 or 1 (or anything below)
      is moved up by 27; larger values are kept. */
  function NormalizeV(v: int): (r: int)
    ensures r == v || r == v + 27
    ensures r != v ==> v <= 1
    ensures v >= 0 ==> r > 1
  {
    if v <= 1 then v + 27 else v
  }

  /** The two conventions for the recovery id meet: 0 and 27 both give 27, 1 and 28 both
      give 28. */
  lemma NormalizeVConventionsAgree(v: int)
    requires v == 0 || v == 1
    ensures NormalizeV(v) == NormalizeV(v + 27) == v + 27
  {
  }

  /** Normalising a non-negative `v` twice gives what normalising once does, and the result
      is never a raw recovery id 0 or 1. */
  lemma NormalizeVIdempotent(v: int)
    requires v >= 0
    ensures NormalizeV(NormalizeV(v)) == NormalizeV(v)
    ensures NormalizeV(v) > 1
  {
  }

  /** `buy_many(how_many, gasLimit)`: the gas limit passed to each call of
      `buy_and_start_subscription`, in call order, and whether the last call raised.
      `raises(i)` says whether attempt `i` raises: the exchange lookup, the price query, the
      approval and the gas-price read of `buy_and_start_subscription` sit outside its `try`,
      and `buy_many` catches nothing, so an attempt that raises ends the loop. Nothing is
      attempted when `how_many < 1`; otherwise the attempts run up to and including the
      first one that raises, and all `how_many` of them when none does. */
  method BuyMany(howMany: int, gasLimit: int, raises: nat -> bool) returns (attempts: seq<int>, raised: bool)
    ensures howMany < 1 ==> attempts == [] && !raised
    ensures |attempts| <= if howMany < 1 then 0 else howMany
    ensures forall i :: 0 <= i < |attempts| ==> attempts[i] == gasLimit
    ensures forall i :: 0 <= i < |attempts| - 1 ==> !raises(i)
    ensures raised <==> |attempts| > 0 && raises(|attempts| - 1)
    ensures !raised ==> |attempts| == if howMany < 1 then 0 else howMany
  {
    attempts, raised := [], false;
    if howMany < 1 {
      return;
    }
    var i := 0;
    while i < howMany && !raised
      invariant 0 <= i <= howMany
      invariant |attempts| == i
      invariant forall j :: 0 <= j < i ==> attempts[j] == gasLimit
      invariant forall j :: 0 <= j < i - 1 ==> !raises(j)
      invariant raised <==> i > 0 && raises(i - 1)
    {
      attempts := attempts + [gasLimit];
      raised := raises(i);
      i := i + 1;
    }
  }
}
