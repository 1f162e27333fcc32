/**
 * `LabeledObject`: an object identified by a non-empty string label. Two
 * labelled objects are equal exactly when their labels are, and the hash
 * code is the label's.
 */
module LabeledObject {
  import opened Wrappers
  import Text

  datatype Labeled = Labeled(name: string)

  /** The constructor: a `null` (None) or empty label is rejected. */
  function New(name: Option<string>): (r: Result<Labeled>)
    ensures r.Ok? <==> name.Some? && |name.value| > 0
    ensures r.Err? ==> r.error == IllegalArgument
    ensures r.Ok? ==> r.value.name == name.value
  {
    if name.None? || |name.value| == 0 then Err(IllegalArgument)
    else Ok(Labeled(name.value))
  }

  /**
   * `equals(obj)`, with `None` standing for `null` and for any object that
   * is not a `LabeledObject`.
   */
  predicate Equals(a: Labeled, obj: Option<Labeled>)
  {
    obj.Some? && a.name == obj.value.name
  }

  /** `hashCode()`: the label's hash, computed once in the constructor. */
  function HashCode(a: Labeled): int
  {
    Text.StringHash(a.name)
  }

  /** `toString()`: the label. */
  function ToString(a: Labeled): string
  {
    a.name
  }

  /** Equality of labelled objects is equality of the values, so it is an equivalence. */
  lemma EqualsIsIdentity(a: Labeled, b: Labeled)
    ensures Equals(a, Some(b)) <==> a == b
    ensures Equals(a, Some(b)) <==> Equals(b, Some(a))
    ensures !Equals(a, None)
  {
  }

  /** Equal objects have equal hash codes. */
  lemma HashCodeConsistent(a: Labeled, b: Labeled)
    requires Equals(a, Some(b))
    ensures HashCode(a) == HashCode(b)
  {
  }

  /** An object built from a label prints as that label and hashes as it. */
  lemma NewPrintsLabel(name: string)
    requires |name| > 0
    ensures New(Some(name)).Ok?
    ensures ToString(New(Some(name)).value) == name
    ensures HashCode(New(Some(name)).value) == Text.StringHash(name)
  {
  }
}
