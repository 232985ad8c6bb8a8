/**
 * The service-job extension of a job descriptor: an immutable value holding the job's
 * capacity, its enabled flag and its retry policy, with a structural `equals`, a
 * 32-bit `hashCode` and a mutable builder.
 *
 * `Capacity` and `RetryPolicy` are classes of the job model whose sources are not part
 * of this model; they are represented as values whose `equals` is structural equality.
 */
module JobExt {
  import opened Options
  import opened JavaInt

  datatype Capacity = Capacity(min: int, desired: int, max: int)

  datatype RetryPolicy = RetryPolicy(retries: int)

  /** Both reference fields are nullable in the source; `None` stands for null. */
  datatype ServiceJobExt = ServiceJobExt(capacity: Option<Capacity>, enabled: bool, retryPolicy: Option<RetryPolicy>)

  /** `a != null ? a.equals(b) : b == null`, for a class whose `equals` is structural. */
  function NullSafeEquals<T(==)>(a: Option<T>, b: Option<T>): bool
  {
    match a
    case Some(x) => b.Some? && x == b.value
    case None => b.None?
  }

  /**
   * `ServiceJobExt.equals(Object)`: `o == None` is a null argument, which is unequal.
   * The identity shortcut `this == o` is subsumed: identical objects have equal fields.
   * Equality holds exactly when all three fields agree, null matching only null.
   */
  function Equals(x: ServiceJobExt, o: Option<ServiceJobExt>): (r: bool)
    ensures r <==> o == Some(x)
    ensures r ==> o.value.enabled == x.enabled && o.value.capacity == x.capacity && o.value.retryPolicy == x.retryPolicy
  {
    match o
    case None => false
    case Some(that) =>
      if x.enabled != that.enabled then false
      else if !NullSafeEquals(x.capacity, that.capacity) then false
      else NullSafeEquals(x.retryPolicy, that.retryPolicy)
  }

  lemma EqualsReflexive(x: ServiceJobExt)
    ensures Equals(x, Some(x))
  {
  }

  lemma EqualsSymmetric(x: ServiceJobExt, y: ServiceJobExt)
    ensures Equals(x, Some(y)) <==> Equals(y, Some(x))
  {
  }

  /**
   * `ServiceJobExt.hashCode()`: `31 * (31 * h(capacity) + enabled) + h(retryPolicy)`
   * in wrapping 32-bit arithmetic, a null field hashing to 0. The field classes'
   * own hash functions are parameters.
   */
  function HashCode(x: ServiceJobExt, capacityHash: Capacity -> int, retryPolicyHash: RetryPolicy -> int): (r: int)
    ensures -TwoTo31 <= r < TwoTo31
  {
    var c := match x.capacity case Some(cap) => ToInt32(capacityHash(cap)) case None => 0;
    var h := ToInt32(31 * c + (if x.enabled then 1 else 0));
    var p := match x.retryPolicy case Some(rp) => ToInt32(retryPolicyHash(rp)) case None => 0;
    ToInt32(31 * h + p)
  }

  /** Values that `equals` relates have the same hash code, whatever the field hashes are. */
  lemma HashCodeConsistentWithEquals(x: ServiceJobExt, y: ServiceJobExt, capacityHash: Capacity -> int, retryPolicyHash: RetryPolicy -> int)
    requires Equals(x, Some(y))
    ensures HashCode(x, capacityHash, retryPolicyHash) == HashCode(y, capacityHash, retryPolicyHash)
  {
  }

  /** The mutable builder; each `with*` sets one field and returns the builder itself. */
  class Builder {
    var capacity: Option<Capacity>
    var enabled: bool
    var retryPolicy: Option<RetryPolicy>

    /** `new Builder()`: Java's default field values. */
    constructor ()
      ensures capacity == None && !enabled && retryPolicy == None
    {
      capacity, enabled, retryPolicy := None, false, None;
    }

    method WithCapacity(c: Option<Capacity>) returns (self: Builder)
      modifies this
      ensures self == this
      ensures capacity == c && enabled == old(enabled) && retryPolicy == old(retryPolicy)
    {
      capacity := c;
      self := this;
    }

    method WithEnabled(e: bool) returns (self: Builder)
      modifies this
      ensures self == this
      ensures enabled == e && capacity == old(capacity) && retryPolicy == old(retryPolicy)
    {
      enabled := e;
      self := this;
    }

    method WithRetryPolicy(p: Option<RetryPolicy>) returns (self: Builder)
      modifies this
      ensures self == this
      ensures retryPolicy == p && capacity == old(capacity) && enabled == old(enabled)
    {
      retryPolicy := p;
      self := this;
    }

    /** A fresh builder holding the same three field values; this one is left as it was. */
    method But() returns (b: Builder)
      ensures fresh(b)
      ensures b.capacity == capacity && b.enabled == enabled && b.retryPolicy == retryPolicy
    {
      b := new Builder();
      b := b.WithCapacity(capacity);
      b := b.WithEnabled(enabled);
      b := b.WithRetryPolicy(retryPolicy);
    }

    /** The immutable value built from the current field values. */
    function Build(): (x: ServiceJobExt)
      reads this
      ensures x.capacity == capacity && x.enabled == enabled && x.retryPolicy == retryPolicy
    {
      ServiceJobExt(capacity, enabled, retryPolicy)
    }
  }

  /** `ServiceJobExt.newBuilder(ext)`: a fresh builder preloaded with the fields of `x`. */
  method NewBuilderFrom(x: ServiceJobExt) returns (b: Builder)
    ensures fresh(b)
    ensures b.Build() == x
  {
    b := new Builder();
    b := b.WithCapacity(x.capacity);
    b := b.WithEnabled(x.enabled);
    b := b.WithRetryPolicy(x.retryPolicy);
  }

  /** `x.toBuilder()`, which delegates to `newBuilder(x)`. */
  method ToBuilder(x: ServiceJobExt) returns (b: Builder)
    ensures fresh(b)
    ensures b.Build() == x
  {
    b := NewBuilderFrom(x);
  }

  /** `x.toBuilder().build()` is `equals` to `x`. */
  method ToBuilderBuild(x: ServiceJobExt) returns (y: ServiceJobExt)
    ensures Equals(y, Some(x))
  {
    var b := ToBuilder(x);
    y := b.Build();
  }

  /** `x.toBuilder().withEnabled(e).build()` changes the enabled flag and nothing else. */
  method WithEnabledCopy(x: ServiceJobExt, e: bool) returns (y: ServiceJobExt)
    ensures y.enabled == e && y.capacity == x.capacity && y.retryPolicy == x.retryPolicy
    ensures Equals(y, Some(x)) <==> e == x.enabled
  {
    var b := ToBuilder(x);
    b := b.WithEnabled(e);
    y := b.Build();
  }
}
