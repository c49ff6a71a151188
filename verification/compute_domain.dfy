/** `computeDomain` from the Home Assistant frontend: the part of an entity id
    before its first `.`. Written, as the frontend helper is, as
    `substring(0, indexOf('.'))`, so an id without a dot has domain `""`. */
module EntityDomain {
  import opened Js

  function ComputeDomain(entityId: string): (r: string)
    // the domain never contains a dot and is always a prefix of the id
    ensures '.' !in r
    ensures StartsWith(entityId, r)
    // with a dot present, the domain is everything before the first one
    ensures '.' in entityId ==> StartsWith(entityId, r + ".")
    // without a dot, `substring(0, -1)` clamps to the empty string
    ensures '.' !in entityId ==> r == ""
  {
    Substring(entityId, 0, IndexOf(entityId, '.'))
  }

  /** The domain determines the id's prefix up to and including the first dot:
      two ids with a dot share a domain exactly when they share that prefix. */
  lemma SameDomainIffSamePrefix(a: string, b: string)
    requires '.' in a && '.' in b
    ensures ComputeDomain(a) == ComputeDomain(b) <==> StartsWith(b, ComputeDomain(a) + ".")
  {
    var da := ComputeDomain(a);
    var db := ComputeDomain(b);
    var ib := IndexOf(b, '.');
    assert db == b[..ib];
    if StartsWith(b, da + ".") {
      assert b[..|da|] == da && b[|da|] == '.';
      assert '.' !in b[..|da|];
      assert ib == |da|;
    }
  }
}
