/**
 * The rule both property commands follow: a truthy value is written with
 * `writer.setAttribute`, anything else removes the attribute.
 */
module Attributes {
  import opened Wrappers

  /** JavaScript truthiness of a string value: present and not empty. */
  predicate Truthy(v: Option<string>) {
    v.Some? && v.value != ""
  }

  /** `getAttribute( name )`: the value, or `undefined` when the attribute is not set. */
  function Attribute(attrs: map<string, string>, name: string): Option<string> {
    if name in attrs then Some(attrs[name]) else None
  }

  /** `setAttribute( name, value )` for a truthy value, `removeAttribute( name )` otherwise. */
  function SetOrRemove(attrs: map<string, string>, name: string, value: Option<string>): (r: map<string, string>)
    ensures Attribute(r, name) == if Truthy(value) then value else None
    ensures forall k :: k != name ==> Attribute(r, k) == Attribute(attrs, k)
  {
    if Truthy(value) then attrs[name := value.value] else attrs - {name}
  }

  /** Writing the same value twice is writing it once. */
  lemma SetOrRemoveTwice(attrs: map<string, string>, name: string, value: Option<string>)
    ensures SetOrRemove(SetOrRemove(attrs, name, value), name, value) == SetOrRemove(attrs, name, value)
  {
    var once := SetOrRemove(attrs, name, value);
    var twice := SetOrRemove(once, name, value);
    forall k
      ensures (k in twice <==> k in once) && (k in twice ==> twice[k] == once[k])
    {
      assert Attribute(twice, k) == Attribute(once, k);
    }
  }
}
