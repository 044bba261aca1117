/**
 * AbstractInterner: a fixed-size cache that maps byte sequences to canonical values.
 *
 * The table holds `n` buckets, `n` the least power of two that is at least the requested
 * capacity and at least 128. A sequence is looked up in two buckets, one chosen by the low
 * bits of its 32-bit hash and one by the next bits up; a hit needs an entry of the same
 * length whose bytes the input starts with. A miss builds the value with the factory,
 * keeps a private copy of the bytes, and overwrites exactly one of the two buckets:
 * an empty one if there is one, otherwise whichever a flip-flop toggle picks.
 *
 * The hash (`BytesStore.fastHash`) and the factory (`getValue`) are supplied by the
 * concrete interner and are parameters here. The input `cs` is the readable part of the
 * caller's bytes, from its read position onwards.
 */
module Interner {
  import opened Outcomes

  /** A Java `int`. */
  type JavaInt = x: int | -0x8000_0000 <= x < 0x8000_0000

  /** One cached sequence: a private copy of its bytes and the value built from them. */
  datatype InternerEntry<T> = InternerEntry(bytes: seq<bv8>, t: T)

  function Pow2(k: nat): (n: nat)
    ensures n >= 1
  {
    if k == 0 then 1 else 2 * Pow2(k - 1)
  }

  lemma {:induction false} Pow2Add(a: nat, b: nat)
    ensures Pow2(a + b) == Pow2(a) * Pow2(b)
  {
    if a > 0 {
      Pow2Add(a - 1, b);
    }
  }

  /** The largest table: 2^30 buckets, the largest power of two a Java int holds. */
  lemma Pow2Thirty()
    ensures Pow2(30) == 0x4000_0000
  {
    assert Pow2(10) == 1024;
    Pow2Add(10, 10);
    Pow2Add(20, 10);
  }

  /**
   * `intLog2(nextPower2(capacity, 128))` when the search starts at exponent `k` (7 for 128):
   * the first exponent from `k` upwards whose power of two is at least `capacity`.
   */
  function TableShift(capacity: int, k: nat): (s: nat)
    requires k <= 30 && capacity <= Pow2(30)
    ensures k <= s <= 30
    ensures Pow2(s) >= capacity
    ensures s == k || Pow2(s - 1) < capacity
    decreases 30 - k
  {
    if Pow2(k) >= capacity then k else TableShift(capacity, k + 1)
  }

  /**
   * `hash & mask` with `mask = 2^shift - 1`: the low `shift` bits of the hash's
   * two's-complement form, which are its remainder modulo 2^shift, negative hashes included.
   */
  function Primary(hash: JavaInt, shift: nat): (h: int)
    ensures 0 <= h < Pow2(shift)
  {
    hash % Pow2(shift)
  }

  /**
   * `(hash >> shift) & mask`: Java's `>>` on an int keeps the sign, dividing by 2^shift
   * and rounding towards minus infinity; the mask then keeps the low `shift` bits of that.
   */
  function Secondary(hash: JavaInt, shift: nat): (h2: int)
    ensures 0 <= h2 < Pow2(shift)
  {
    (hash / Pow2(shift)) % Pow2(shift)
  }

  predicate StartsWith(cs: seq<bv8>, prefix: seq<bv8>) {
    |prefix| <= |cs| && cs[..|prefix|] == prefix
  }

  /** The hit test: the bucket holds an entry of exactly `length` bytes and the input starts with them. */
  predicate Matches<T>(bucket: Option<InternerEntry<T>>, cs: seq<bv8>, length: nat) {
    bucket.Some? && |bucket.value.bytes| == length && StartsWith(cs, bucket.value.bytes)
  }

  /** Which bucket a miss overwrites, and the toggle afterwards. */
  datatype Choice = Choice(primary: bool, toggle: bool)

  /**
   * `s == null || (s2 != null && toggle()) ? h : h2`: the primary bucket when it is empty,
   * else the secondary when that is empty, else the flipped toggle decides; `toggle()`
   * is evaluated, and so flips, only when both buckets are occupied.
   */
  function ChooseSlot(primaryEmpty: bool, secondaryEmpty: bool, toggle: bool): (c: Choice)
    ensures primaryEmpty ==> c.primary
    ensures primaryEmpty || secondaryEmpty ==> (if c.primary then primaryEmpty else secondaryEmpty)
    ensures c.toggle != toggle <==> !primaryEmpty && !secondaryEmpty
    ensures !primaryEmpty && !secondaryEmpty ==> c.primary == c.toggle
  {
    if primaryEmpty then Choice(true, toggle)
    else if secondaryEmpty then Choice(false, toggle)
    else Choice(!toggle, !toggle)
  }

  /** The result of one `intern` call and the table and toggle it leaves. */
  datatype Step<T> = Step(result: Result<T>, entries: seq<Option<InternerEntry<T>>>, toggle: bool)

  /**
   * `intern(cs, length)` as a function of the table and toggle before the call. The
   * factory can throw; it runs before the table is written, so its failure leaves the
   * table and the toggle as they were.
   */
  function Intern<T>(entries: seq<Option<InternerEntry<T>>>, toggle: bool, shift: nat,
                     hash: seq<bv8> -> JavaInt, getValue: seq<bv8> -> Result<T>,
                     cs: seq<bv8>, length: nat): (step: Step<T>)
    requires |entries| == Pow2(shift)
    ensures |step.entries| == |entries|
    ensures step.result.Err? ==> step.entries == entries && step.toggle == toggle
  {
    if length > |entries| then
      Step(if length <= |cs| then getValue(cs[..length]) else Err(BufferUnderflow), entries, toggle)
    else if length > |cs| then
      Step(Err(BufferUnderflow), entries, toggle)
    else
      var key := cs[..length];
      var h := Primary(hash(key), shift);
      var h2 := Secondary(hash(key), shift);
      if Matches(entries[h], cs, length) then Step(Ok(entries[h].value.t), entries, toggle)
      else if Matches(entries[h2], cs, length) then Step(Ok(entries[h2].value.t), entries, toggle)
      else match getValue(key)
        case Err(e) => Step(Err(e), entries, toggle)
        case Ok(t) =>
          var choice := ChooseSlot(entries[h].None?, entries[h2].None?, toggle);
          Step(Ok(t), entries[if choice.primary then h else h2 := Some(InternerEntry(key, t))], choice.toggle)
  }

  /** The number of occupied buckets. */
  function CountOccupied<T>(s: seq<Option<T>>): (c: nat)
    ensures c <= |s|
  {
    if s == [] then 0 else CountOccupied(s[..|s| - 1]) + (if s[|s| - 1].Some? then 1 else 0)
  }

  /** Every cached value is the one the factory builds, without throwing, from the entry's bytes. */
  ghost predicate Coherent<T>(entries: seq<Option<InternerEntry<T>>>, getValue: seq<bv8> -> Result<T>) {
    forall i :: 0 <= i < |entries| && entries[i].Some? ==> getValue(entries[i].value.bytes) == Ok(entries[i].value.t)
  }

  /** Every cached sequence is short enough to be cached and sits in one of its own two buckets. */
  ghost predicate Placed<T>(entries: seq<Option<InternerEntry<T>>>, shift: nat, hash: seq<bv8> -> JavaInt)
    requires |entries| == Pow2(shift)
  {
    forall i :: 0 <= i < |entries| && entries[i].Some? ==>
      |entries[i].value.bytes| <= |entries| &&
      (i == Primary(hash(entries[i].value.bytes), shift) || i == Secondary(hash(entries[i].value.bytes), shift))
  }

  /** A bucket answers for the input exactly when it holds the input's first `length` bytes. */
  lemma MatchesKey<T>(bucket: Option<InternerEntry<T>>, cs: seq<bv8>, length: nat)
    requires length <= |cs|
    ensures Matches(bucket, cs, length) <==> bucket.Some? && bucket.value.bytes == cs[..length]
  {
  }

  /**
   * `intern` fails only when fewer than `length` bytes are readable (BufferUnderflow) or
   * the factory throws (its own error), and a failure changes nothing. In a coherent cache
   * it fails exactly then: a cached value is one the factory built without throwing.
   */
  lemma InternFailures<T>(entries: seq<Option<InternerEntry<T>>>, toggle: bool, shift: nat,
                          hash: seq<bv8> -> JavaInt, getValue: seq<bv8> -> Result<T>,
                          cs: seq<bv8>, length: nat)
    requires |entries| == Pow2(shift)
    ensures var step := Intern(entries, toggle, shift, hash, getValue, cs, length);
            step.result.Err? ==>
              step.entries == entries && step.toggle == toggle &&
              step.result.error == if length > |cs| then BufferUnderflow else getValue(cs[..length]).error
    ensures Coherent(entries, getValue) ==>
              (Intern(entries, toggle, shift, hash, getValue, cs, length).result.Err? <==>
               length > |cs| || getValue(cs[..length]).Err?)
  {
    if length <= |cs| && Coherent(entries, getValue) {
      InternReturnsFactoryValue(entries, toggle, shift, hash, getValue, cs, length);
    }
  }

  /** A sequence longer than the table bypasses the cache: its value is built afresh and nothing is cached. */
  lemma InternBypassesLongInput<T>(entries: seq<Option<InternerEntry<T>>>, toggle: bool, shift: nat,
                                   hash: seq<bv8> -> JavaInt, getValue: seq<bv8> -> Result<T>,
                                   cs: seq<bv8>, length: nat)
    requires |entries| == Pow2(shift) && |entries| < length <= |cs|
    ensures var step := Intern(entries, toggle, shift, hash, getValue, cs, length);
            step.result == getValue(cs[..length]) && step.entries == entries && step.toggle == toggle
  {
  }

  /** After a successful `intern`, the sequence is cached in one of its two buckets, under the value returned. */
  lemma InternCachesKey<T>(entries: seq<Option<InternerEntry<T>>>, toggle: bool, shift: nat,
                           hash: seq<bv8> -> JavaInt, getValue: seq<bv8> -> Result<T>,
                           cs: seq<bv8>, length: nat)
    requires |entries| == Pow2(shift) && length <= |entries| && length <= |cs|
    ensures var step := Intern(entries, toggle, shift, hash, getValue, cs, length);
            var key := cs[..length];
            var h := Primary(hash(key), shift);
            var h2 := Secondary(hash(key), shift);
            step.result.Ok? ==>
              step.entries[h] == Some(InternerEntry(key, step.result.value)) ||
              step.entries[h2] == Some(InternerEntry(key, step.result.value))
  {
    var key := cs[..length];
    var h := Primary(hash(key), shift);
    var h2 := Secondary(hash(key), shift);
    MatchesKey(entries[h], cs, length);
    MatchesKey(entries[h2], cs, length);
  }

  /** Interning changes no bucket other than the sequence's own two. */
  lemma InternTouchesOnlyItsBuckets<T>(entries: seq<Option<InternerEntry<T>>>, toggle: bool, shift: nat,
                                       hash: seq<bv8> -> JavaInt, getValue: seq<bv8> -> Result<T>,
                                       cs: seq<bv8>, length: nat, i: int)
    requires |entries| == Pow2(shift) && 0 <= i < |entries|
    requires length <= |cs| ==> i != Primary(hash(cs[..length]), shift) && i != Secondary(hash(cs[..length]), shift)
    ensures |Intern(entries, toggle, shift, hash, getValue, cs, length).entries| == |entries|
    ensures Intern(entries, toggle, shift, hash, getValue, cs, length).entries[i] == entries[i]
  {
  }

  /**
   * A miss evicts a cached sequence only when both of the new sequence's buckets are occupied;
   * otherwise every cached sequence survives.
   */
  lemma InternEvictsOnlyWhenBothFull<T>(entries: seq<Option<InternerEntry<T>>>, toggle: bool, shift: nat,
                                        hash: seq<bv8> -> JavaInt, getValue: seq<bv8> -> Result<T>,
                                        cs: seq<bv8>, length: nat, i: int)
    requires |entries| == Pow2(shift) && 0 <= i < |entries| && entries[i].Some?
    requires length <= |cs| ==> entries[Primary(hash(cs[..length]), shift)].None? || entries[Secondary(hash(cs[..length]), shift)].None?
    ensures Intern(entries, toggle, shift, hash, getValue, cs, length).entries[i] == entries[i]
  {
  }

  /** The toggle flips exactly when a miss finds both of its buckets occupied and the factory succeeds. */
  lemma InternToggle<T>(entries: seq<Option<InternerEntry<T>>>, toggle: bool, shift: nat,
                        hash: seq<bv8> -> JavaInt, getValue: seq<bv8> -> Result<T>,
                        cs: seq<bv8>, length: nat)
    requires |entries| == Pow2(shift)
    ensures var step := Intern(entries, toggle, shift, hash, getValue, cs, length);
            step.toggle != toggle <==>
              length <= |entries| && length <= |cs| &&
              (var h := Primary(hash(cs[..length]), shift);
               var h2 := Secondary(hash(cs[..length]), shift);
               entries[h].Some? && entries[h2].Some? &&
               !Matches(entries[h], cs, length) && !Matches(entries[h2], cs, length) &&
               getValue(cs[..length]).Ok?)
  {
  }

  /**
   * Which bucket a miss overwrites when its two distinct buckets are both occupied: the
   * primary one exactly when the toggle was off.
   */
  lemma InternReplacesByToggle<T>(entries: seq<Option<InternerEntry<T>>>, toggle: bool, shift: nat,
                                  hash: seq<bv8> -> JavaInt, getValue: seq<bv8> -> Result<T>,
                                  cs: seq<bv8>, length: nat)
    requires |entries| == Pow2(shift) && length <= |entries| && length <= |cs|
    requires var h := Primary(hash(cs[..length]), shift);
             var h2 := Secondary(hash(cs[..length]), shift);
             h != h2 && entries[h].Some? && entries[h2].Some? &&
             !Matches(entries[h], cs, length) && !Matches(entries[h2], cs, length) &&
             getValue(cs[..length]).Ok?
    ensures var step := Intern(entries, toggle, shift, hash, getValue, cs, length);
            var h := Primary(hash(cs[..length]), shift);
            var h2 := Secondary(hash(cs[..length]), shift);
            (step.entries[h] != entries[h] <==> !toggle) && (step.entries[h2] != entries[h2] <==> toggle)
  {
  }

  /**
   * A miss whose primary bucket is empty stores the sequence there, whatever the secondary
   * bucket holds (both empty included), and leaves the toggle alone.
   */
  lemma InternFillsEmptyPrimary<T>(entries: seq<Option<InternerEntry<T>>>, toggle: bool, shift: nat,
                                   hash: seq<bv8> -> JavaInt, getValue: seq<bv8> -> Result<T>,
                                   cs: seq<bv8>, length: nat)
    requires |entries| == Pow2(shift) && length <= |entries| && length <= |cs|
    requires var h := Primary(hash(cs[..length]), shift);
             var h2 := Secondary(hash(cs[..length]), shift);
             entries[h].None? && !Matches(entries[h2], cs, length) && getValue(cs[..length]).Ok?
    ensures var step := Intern(entries, toggle, shift, hash, getValue, cs, length);
            var key := cs[..length];
            step == Step(getValue(key), entries[Primary(hash(key), shift) := Some(InternerEntry(key, getValue(key).value))], toggle)
  {
  }

  /**
   * A miss whose primary bucket is occupied and whose secondary bucket is empty stores the
   * sequence in the secondary bucket and leaves the toggle alone.
   */
  lemma InternFillsEmptySecondary<T>(entries: seq<Option<InternerEntry<T>>>, toggle: bool, shift: nat,
                                     hash: seq<bv8> -> JavaInt, getValue: seq<bv8> -> Result<T>,
                                     cs: seq<bv8>, length: nat)
    requires |entries| == Pow2(shift) && length <= |entries| && length <= |cs|
    requires var h := Primary(hash(cs[..length]), shift);
             var h2 := Secondary(hash(cs[..length]), shift);
             entries[h].Some? && !Matches(entries[h], cs, length) && entries[h2].None? && getValue(cs[..length]).Ok?
    ensures var step := Intern(entries, toggle, shift, hash, getValue, cs, length);
            var key := cs[..length];
            step == Step(getValue(key), entries[Secondary(hash(key), shift) := Some(InternerEntry(key, getValue(key).value))], toggle)
  {
  }

  /** The cache's invariants hold across `intern`. */
  lemma InternPreservesInvariants<T>(entries: seq<Option<InternerEntry<T>>>, toggle: bool, shift: nat,
                                     hash: seq<bv8> -> JavaInt, getValue: seq<bv8> -> Result<T>,
                                     cs: seq<bv8>, length: nat)
    requires |entries| == Pow2(shift) && Coherent(entries, getValue) && Placed(entries, shift, hash)
    ensures var step := Intern(entries, toggle, shift, hash, getValue, cs, length);
            |step.entries| == |entries| &&
            Coherent(step.entries, getValue) && Placed(step.entries, shift, hash)
  {
  }

  /** In a coherent cache, interning returns exactly what the factory builds from the bytes, or its error. */
  lemma InternReturnsFactoryValue<T>(entries: seq<Option<InternerEntry<T>>>, toggle: bool, shift: nat,
                                     hash: seq<bv8> -> JavaInt, getValue: seq<bv8> -> Result<T>,
                                     cs: seq<bv8>, length: nat)
    requires |entries| == Pow2(shift) && Coherent(entries, getValue) && length <= |cs|
    ensures Intern(entries, toggle, shift, hash, getValue, cs, length).result == getValue(cs[..length])
  {
    if length <= |entries| {
      var key := cs[..length];
      MatchesKey(entries[Primary(hash(key), shift)], cs, length);
      MatchesKey(entries[Secondary(hash(key), shift)], cs, length);
    }
  }

  /**
   * A hit on either bucket of any table returns the cached value and changes neither the
   * table nor the toggle; the primary bucket is tried first.
   */
  lemma InternHit<T>(entries: seq<Option<InternerEntry<T>>>, toggle: bool, shift: nat,
                     hash: seq<bv8> -> JavaInt, getValue: seq<bv8> -> Result<T>,
                     cs: seq<bv8>, length: nat)
    requires |entries| == Pow2(shift) && length <= |entries| && length <= |cs|
    ensures var step := Intern(entries, toggle, shift, hash, getValue, cs, length);
            var h := Primary(hash(cs[..length]), shift);
            var h2 := Secondary(hash(cs[..length]), shift);
            (Matches(entries[h], cs, length) ==> step == Step(Ok(entries[h].value.t), entries, toggle)) &&
            (!Matches(entries[h], cs, length) && Matches(entries[h2], cs, length) ==>
               step == Step(Ok(entries[h2].value.t), entries, toggle))
  {
  }

  /**
   * The canonical instance: after a successful `intern`, interning the same bytes straight
   * again hits the cache, returns the identical value and changes nothing.
   */
  lemma InternAgainHits<T>(entries: seq<Option<InternerEntry<T>>>, toggle: bool, shift: nat,
                           hash: seq<bv8> -> JavaInt, getValue: seq<bv8> -> Result<T>,
                           cs: seq<bv8>, cs': seq<bv8>, length: nat)
    requires |entries| == Pow2(shift) && length <= |entries| && length <= |cs| && length <= |cs'|
    requires cs'[..length] == cs[..length]
    ensures var first := Intern(entries, toggle, shift, hash, getValue, cs, length);
            var second := Intern(first.entries, first.toggle, shift, hash, getValue, cs', length);
            first.result.Ok? ==> second == Step(first.result, first.entries, first.toggle)
  {
    var key := cs[..length];
    var h := Primary(hash(key), shift);
    var h2 := Secondary(hash(key), shift);
    var first := Intern(entries, toggle, shift, hash, getValue, cs, length);
    InternCachesKey(entries, toggle, shift, hash, getValue, cs, length);
    MatchesKey(first.entries[h], cs', length);
    MatchesKey(first.entries[h2], cs', length);
    MatchesKey(entries[h], cs, length);
  }

  /** Storing into a bucket raises the occupied count by one exactly when the bucket was empty. */
  lemma {:induction false} CountAfterStore<T>(s: seq<Option<T>>, i: int, x: T)
    requires 0 <= i < |s|
    ensures CountOccupied(s[i := Some(x)]) == CountOccupied(s) + (if s[i].None? then 1 else 0)
  {
    var s' := s[i := Some(x)];
    if i == |s| - 1 {
      assert s'[..|s'| - 1] == s[..|s| - 1];
    } else {
      assert s'[..|s'| - 1] == s[..|s| - 1][i := Some(x)];
      CountAfterStore(s[..|s| - 1], i, x);
    }
  }

  /** `valueCount()` never falls, and rises by one exactly when a miss whose factory succeeds fills an empty bucket. */
  lemma InternValueCount<T>(entries: seq<Option<InternerEntry<T>>>, toggle: bool, shift: nat,
                            hash: seq<bv8> -> JavaInt, getValue: seq<bv8> -> Result<T>,
                            cs: seq<bv8>, length: nat)
    requires |entries| == Pow2(shift)
    ensures var step := Intern(entries, toggle, shift, hash, getValue, cs, length);
            CountOccupied(step.entries) ==
              CountOccupied(entries) +
              (if length <= |entries| && length <= |cs| &&
                  (var h := Primary(hash(cs[..length]), shift);
                   var h2 := Secondary(hash(cs[..length]), shift);
                   (entries[h].None? || entries[h2].None?) &&
                   !Matches(entries[h], cs, length) && !Matches(entries[h2], cs, length) &&
                   getValue(cs[..length]).Ok?)
               then 1 else 0)
  {
    if length <= |entries| && length <= |cs| {
      var key := cs[..length];
      var h := Primary(hash(key), shift);
      var h2 := Secondary(hash(key), shift);
      if !Matches(entries[h], cs, length) && !Matches(entries[h2], cs, length) && getValue(key).Ok? {
        var choice := ChooseSlot(entries[h].None?, entries[h2].None?, toggle);
        CountAfterStore(entries, if choice.primary then h else h2, InternerEntry(key, getValue(key).value));
      }
    }
  }

  class AbstractInterner<T> {
    const entries: array<Option<InternerEntry<T>>>
    const mask: int
    const shift: nat
    var toggle: bool
    /** `BytesStore.fastHash` over the bytes to intern. */
    const hash: seq<bv8> -> JavaInt
    /** `getValue`: the factory the concrete interner supplies. */
    const getValue: seq<bv8> -> Result<T>

    /** The table's shape, and the cache invariants over its contents. */
    ghost predicate Valid()
      reads this, entries
    {
      entries.Length == Pow2(shift) && mask == entries.Length - 1 &&
      Coherent(entries[..], getValue) && Placed(entries[..], shift, hash)
    }

    constructor (capacity: int, hash: seq<bv8> -> JavaInt, getValue: seq<bv8> -> Result<T>)
      requires capacity <= 0x4000_0000
      ensures Valid() && fresh(entries) && !toggle
      ensures entries.Length >= 128 && entries.Length >= capacity
      ensures entries.Length == 128 || entries.Length / 2 < capacity
      ensures forall i :: 0 <= i < entries.Length ==> entries[i].None?
      ensures this.hash == hash && this.getValue == getValue
    {
      Pow2Thirty();
      var n := Pow2(TableShift(capacity, 7));
      shift := TableShift(capacity, 7);
      entries := new Option<InternerEntry<T>>[n](_ => None);
      mask := n - 1;
      toggle := false;
      this.hash := hash;
      this.getValue := getValue;
    }

    /** `toggle = !toggle`, returning the new setting. */
    method Toggle() returns (b: bool)
      modifies this`toggle
      ensures toggle == !old(toggle) && b == toggle
    {
      toggle := !toggle;
      b := toggle;
    }

    /** `intern(cs)`: interns everything readable. */
    method InternAll(cs: seq<bv8>) returns (r: Result<T>)
      requires Valid()
      modifies this`toggle, entries
      ensures Valid()
      ensures var step := Intern(old(entries[..]), old(toggle), shift, hash, getValue, cs, |cs|);
              r == step.result && entries[..] == step.entries && toggle == step.toggle
      ensures r == getValue(cs)
    {
      r := InternPrefix(cs, |cs|);
      assert cs[..|cs|] == cs;
    }

    /** `intern(cs, length)`: interns the first `length` readable bytes. */
    method InternPrefix(cs: seq<bv8>, length: nat) returns (r: Result<T>)
      requires Valid()
      modifies this`toggle, entries
      ensures Valid()
      ensures var step := Intern(old(entries[..]), old(toggle), shift, hash, getValue, cs, length);
              r == step.result && entries[..] == step.entries && toggle == step.toggle
      ensures length <= |cs| ==> r == getValue(cs[..length])
      ensures length > |cs| ==> r == Err(BufferUnderflow)
    {
      InternPreservesInvariants(entries[..], toggle, shift, hash, getValue, cs, length);
      if length <= |cs| {
        InternReturnsFactoryValue(entries[..], toggle, shift, hash, getValue, cs, length);
      }
      if length > entries.Length {
        if length > |cs| {
          return Err(BufferUnderflow);
        }
        return getValue(cs[..length]);
      }
      if length > |cs| {
        return Err(BufferUnderflow);
      }
      var key := cs[..length];
      var hash := this.hash(key);
      var h := Primary(hash, shift);
      var s := entries[h];
      if Matches(s, cs, length) {
        return Ok(s.value.t);
      }
      var h2 := Secondary(hash, shift);
      var s2 := entries[h2];
      if Matches(s2, cs, length) {
        return Ok(s2.value.t);
      }
      var value := getValue(key);
      if value.Err? {
        return value;
      }
      var t := value.value;
      var usePrimary := s.None?;
      if !usePrimary && s2.Some? {
        usePrimary := Toggle();
      }
      entries[if usePrimary then h else h2] := Some(InternerEntry(key, t));
      return Ok(t);
    }

    /** `valueCount()`: how many buckets are occupied. */
    function ValueCount(): (c: nat)
      reads this, entries
      ensures c <= entries.Length
    {
      CountOccupied(entries[..])
    }
  }
}
