/**
 * The password length (PasswordGenerator.cs, lines 75-76): the source computes
 * `ceil(minimumEntropy / log2(poolCount))` in floating point; the model states the same
 * length exactly, as the fewest symbols `L` whose `poolCount^L` outcomes reach `2^minimumEntropy`.
 */
module PasswordLength {
  import opened Wrappers
  import opened Arithmetic

  function Pow(b: nat, k: nat): nat
  {
    if k == 0 then 1 else b * Pow(b, k - 1)
  }

  /** `L` symbols from `n` carry at least `e` bits of entropy: `L * log2(n) >= e`, i.e. `n^L >= 2^e`. */
  predicate MeetsEntropy(e: nat, n: nat, L: nat)
  {
    Pow(n, L) >= Pow(2, e)
  }

  /** `L` is the shortest length that meets the entropy target. */
  predicate IsMinimalLength(e: nat, n: nat, L: nat)
  {
    MeetsEntropy(e, n, L) && forall shorter :: 0 <= shorter < L ==> !MeetsEntropy(e, n, shorter)
  }

  lemma {:induction false} PowAdd(b: nat, m: nat, k: nat)
    ensures Pow(b, m + k) == Pow(b, m) * Pow(b, k)
  {
    if m > 0 {
      PowAdd(b, m - 1, k);
      MulAssociative(b, Pow(b, m - 1), Pow(b, k));
    }
  }

  /** A larger base gives a power at least as large. */
  lemma {:induction false} PowMonotoneInBase(a: nat, b: nat, k: nat)
    requires a <= b
    ensures Pow(a, k) <= Pow(b, k)
  {
    if k > 0 {
      PowMonotoneInBase(a, b, k - 1);
      MulMonotone(a, b, Pow(a, k - 1), Pow(b, k - 1));
    }
  }

  /** For a base of at least 2, a longer password never carries less entropy. */
  lemma {:induction false} PowMonotoneInExponent(n: nat, j: nat, k: nat)
    requires n >= 1 && j <= k
    ensures Pow(n, j) <= Pow(n, k)
  {
    if j < k {
      PowMonotoneInExponent(n, j, k - 1);
      assert Pow(n, k - 1) <= n * Pow(n, k - 1);
    }
  }

  /** The search behind MinimalLength: the first `L` from `from` on that meets the target. */
  function MinimalLengthFrom(e: nat, n: nat, from: nat): (L: nat)
    requires n >= 2 && from <= e
    requires forall shorter :: 0 <= shorter < from ==> !MeetsEntropy(e, n, shorter)
    ensures from <= L <= e
    ensures IsMinimalLength(e, n, L)
    decreases e - from
  {
    if MeetsEntropy(e, n, from) then from
    else
      PowMonotoneInBase(2, n, e);
      MinimalLengthFrom(e, n, from + 1)
  }

  /** The fewest symbols from a pool of `n >= 2` that carry at least `e` bits. */
  function MinimalLength(e: nat, n: nat): (L: nat)
    requires n >= 2
    ensures IsMinimalLength(e, n, L)
    ensures L <= e
  {
    MinimalLengthFrom(e, n, 0)
  }

  /**
   * `ComputePasswordLength(minimumEntropy, poolCount)` for the pool sizes the generator
   * accepts. For `poolCount >= 2` it is the minimal length. The degenerate sizes follow
   * the source's floating-point arithmetic: `log2(0)` is minus infinity, so an empty pool
   * gives length 0; `log2(1)` is 0, so a one-element pool makes the quotient infinite and
   * `Convert.ToInt32` throw (None).
   */
  function ComputePasswordLength(minimumEntropy: nat, poolCount: nat): (r: Option<nat>)
    requires minimumEntropy >= 1
    ensures poolCount == 0 ==> r == Some(0)
    ensures poolCount == 1 ==> r == None
    ensures poolCount >= 2 ==> r.Some? && IsMinimalLength(minimumEntropy, poolCount, r.value)
    ensures poolCount >= 2 ==> 1 <= r.value <= minimumEntropy
  {
    if poolCount == 0 then Some(0)
    else if poolCount == 1 then None
    else
      PowMonotoneInExponent(2, 1, minimumEntropy);
      Some(MinimalLength(minimumEntropy, poolCount))
  }

  /** The minimal length is unique: any length that meets the target while one less does not is it. */
  lemma MinimalLengthUnique(e: nat, n: nat, L: nat)
    requires n >= 2 && MeetsEntropy(e, n, L) && (L == 0 || !MeetsEntropy(e, n, L - 1))
    ensures MinimalLength(e, n) == L
  {
    var m := MinimalLength(e, n);
    if m < L {
      PowMonotoneInExponent(n, m, L - 1);
    }
  }

  /** A higher entropy target never shortens the password. */
  lemma MinimalLengthMonotone(e: nat, e': nat, n: nat)
    requires n >= 2 && e <= e'
    ensures MinimalLength(e, n) <= MinimalLength(e', n)
  {
    var m' := MinimalLength(e', n);
    PowMonotoneInExponent(2, e, e');
    assert MeetsEntropy(e, n, m');
  }

  /**
   * The ten digits reach the length cap exactly: 850 bits need 256 digits
   * (10^255 < 2^850 <= 10^256) and 851 bits need 257 (10^256 < 2^851).
   */
  lemma DigitsLengthBoundary()
    ensures ComputePasswordLength(850, 10) == Some(256)
    ensures ComputePasswordLength(851, 10) == Some(257)
  {
    DigitPowers();
    MinimalLengthUnique(850, 10, 256);
    MinimalLengthUnique(851, 10, 257);
  }

  lemma DigitPowers()
    ensures Pow(10, 255) < Pow(2, 850) <= Pow(10, 256) < Pow(2, 851)
  {
    PowersOfTwo();
    PowersOfTen();
  }

  lemma PowersOfTwo()
    ensures Pow(2, 850) == 7507516828804700229971157695509256861311759593549503536677899390762631562619231707947410198580331380848554019184705462619182690666302243261761460906639905160039726922590902577336628349889145412319979767917902626154330339044684617119264613887239597666074624
    ensures Pow(2, 851) == 15015033657609400459942315391018513722623519187099007073355798781525263125238463415894820397160662761697108038369410925238365381332604486523522921813279810320079453845181805154673256699778290824639959535835805252308660678089369234238529227774479195332149248
  {
    assert Pow(2, 1) == 2;
    PowAdd(2, 1, 1); assert Pow(2, 2) == 4;
    PowAdd(2, 2, 2); assert Pow(2, 4) == 16;
    PowAdd(2, 4, 4); assert Pow(2, 8) == 256;
    PowAdd(2, 8, 8); assert Pow(2, 16) == 65536;
    PowAdd(2, 16, 16); assert Pow(2, 32) == 4294967296;
    PowAdd(2, 32, 32); assert Pow(2, 64) == 18446744073709551616;
    PowAdd(2, 64, 64); assert Pow(2, 128) == 340282366920938463463374607431768211456;
    PowAdd(2, 128, 128); assert Pow(2, 256) == 115792089237316195423570985008687907853269984665640564039457584007913129639936;
    PowAdd(2, 256, 256); assert Pow(2, 512) == 13407807929942597099574024998205846127479365820592393377723561443721764030073546976801874298166903427690031858186486050853753882811946569946433649006084096;
    PowAdd(2, 512, 256); assert Pow(2, 768) == 1552518092300708935148979488462502555256886017116696611139052038026050952686376886330878408828646477950487730697131073206171580044114814391444287275041181139204454976020849905550265285631598444825262999193716468750892846853816057856;
    PowAdd(2, 768, 64); assert Pow(2, 832) == 28638903918474961204418783933674838490721739172170652529441449702311064005352904159345284265824628375429359509218999720074396860757073376700445026041564579620512874307979212102266801261478978776245040008231745247475930553606737583615358787106474295296;
    PowAdd(2, 832, 16); assert Pow(2, 848) == 1876879207201175057492789423877314215327939898387375884169474847690657890654807926986852549645082845212138504796176365654795672666575560815440365226659976290009931730647725644334157087472286353079994941979475656538582584761171154279816153471809899416518656;
    PowAdd(2, 848, 2); assert Pow(2, 850) == 7507516828804700229971157695509256861311759593549503536677899390762631562619231707947410198580331380848554019184705462619182690666302243261761460906639905160039726922590902577336628349889145412319979767917902626154330339044684617119264613887239597666074624;
    PowAdd(2, 850, 1);
  }

  lemma PowersOfTen()
    ensures Pow(10, 255) == 1000000000000000000000000000000000000000000000000000000000000000000000000000000000000000000000000000000000000000000000000000000000000000000000000000000000000000000000000000000000000000000000000000000000000000000000000000000000000000000000000000000000000000
    ensures Pow(10, 256) == 10000000000000000000000000000000000000000000000000000000000000000000000000000000000000000000000000000000000000000000000000000000000000000000000000000000000000000000000000000000000000000000000000000000000000000000000000000000000000000000000000000000000000000
  {
    assert Pow(10, 1) == 10;
    PowAdd(10, 1, 1); assert Pow(10, 2) == 100;
    PowAdd(10, 2, 2); assert Pow(10, 4) == 10000;
    PowAdd(10, 4, 4); assert Pow(10, 8) == 100000000;
    PowAdd(10, 8, 8); assert Pow(10, 16) == 10000000000000000;
    PowAdd(10, 16, 16); assert Pow(10, 32) == 100000000000000000000000000000000;
    PowAdd(10, 32, 32); assert Pow(10, 64) == 10000000000000000000000000000000000000000000000000000000000000000;
    PowAdd(10, 64, 64); assert Pow(10, 128) == 100000000000000000000000000000000000000000000000000000000000000000000000000000000000000000000000000000000000000000000000000000000;
    PowAdd(10, 128, 128); assert Pow(10, 256) == 10000000000000000000000000000000000000000000000000000000000000000000000000000000000000000000000000000000000000000000000000000000000000000000000000000000000000000000000000000000000000000000000000000000000000000000000000000000000000000000000000000000000000000;
    PowAdd(10, 255, 1);
  }
}
