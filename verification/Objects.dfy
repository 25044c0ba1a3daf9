/** Typed objects, their addresses, and the depot that holds them (cas.c). */
module Objects {
  import opened Bytes

  /** A typed object: its type string and its plaintext. */
  datatype Object = Object(kind: string, data: seq<byte>)

  /** cas_hash_object.  Every statement below holds for any hash function; where
      it needs two texts not to collide, it says which. */
  type HashFn = Object -> Digest

  /** Nothing stored is replaced or lost. */
  predicate Grows(before: map<Digest, Object>, after: map<Digest, Object>)
  {
    forall a :: a in before ==> a in after && after[a] == before[a]
  }

  class Store {
    const hash: HashFn
    var objects: map<Digest, Object>

    constructor (hash: HashFn)
      ensures this.hash == hash && objects == map[]
    {
      this.hash := hash;
      objects := map[];
    }

    /** cas_put_object_at: an address already present is left alone. */
    method PutAt(o: Object, addr: Digest)
      modifies this
      ensures objects == if addr in old(objects) then old(objects) else old(objects)[addr := o]
    {
      if addr !in objects {
        objects := objects[addr := o];
      }
    }

    /** cas_put_object */
    method Put(o: Object) returns (addr: Digest)
      modifies this
      ensures addr == hash(o)
      ensures objects == if addr in old(objects) then old(objects) else old(objects)[addr := o]
    {
      addr := hash(o);
      PutAt(o, addr);
    }
  }
}
