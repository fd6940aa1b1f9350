/**
 * The random source of the algorithms. The engine (`std::mt19937`, `rand`)
 * is replaced by an arbitrary stream of raw draws; every property of the
 * model holds for every stream.
 */
module Random {

  class Generator {
    /** The oracle: the raw value of the k-th draw. */
    const stream: nat -> nat
    /** How many raw values have been drawn. */
    var position: nat

    constructor (stream: nat -> nat)
      ensures this.stream == stream && position == 0
    {
      this.stream := stream;
      position := 0;
    }

    /** `rand() % n`: a value in [0, n). */
    method Below(n: int) returns (k: int)
      requires n > 0
      modifies this
      ensures 0 <= k < n
      ensures k == stream(old(position)) % n && position == old(position) + 1
    {
      k := stream(position) % n;
      position := position + 1;
    }

    /** `std::uniform_int_distribution<int>(lo, hi)`: a value in [lo, hi]. */
    method UniformInt(lo: int, hi: int) returns (k: int)
      requires lo <= hi
      modifies this
      ensures lo <= k <= hi
      ensures k == lo + stream(old(position)) % (hi - lo + 1) && position == old(position) + 1
    {
      var d := Below(hi - lo + 1);
      k := lo + d;
    }

    /** `std::shuffle` / `std::random_shuffle`: a permutation of `s` (Fisher-Yates). */
    method Shuffle<T>(s: seq<T>) returns (r: seq<T>)
      modifies this
      ensures |r| == |s| && multiset(r) == multiset(s)
    {
      r := s;
      var i := |r|;
      while i > 1
        invariant 0 <= i <= |r| && |r| == |s|
        invariant multiset(r) == multiset(s)
      {
        var j := Below(i);
        r := r[i - 1 := r[j]][j := r[i - 1]];
        i := i - 1;
      }
    }
  }
}
