/** Small types shared by the models of the storage, configuration and protocol code. */
module Basics {

  /** A value, or the code of the error raised instead. */
  datatype Result<T> = Success(value: T) | Failure(code: string)

  datatype Option<+T> = None | Some(value: T) {
    function GetOr(default: T): T {
      match this
      case Some(v) => v
      case None => default
    }
  }

  /** A finite set of keys that are ranked by an integer has a least-ranked key. */
  lemma {:induction false} LeastRankedExists<K>(keys: set<K>, rank: map<K, int>)
    requires keys != {} && keys <= rank.Keys
    ensures exists x :: x in keys && forall y :: y in keys ==> rank[x] <= rank[y]
    decreases |keys|
  {
    var x :| x in keys;
    if keys != {x} {
      assert |keys - {x}| < |keys|;
      LeastRankedExists(keys - {x}, rank);
      var z :| z in keys - {x} && forall y :: y in keys - {x} ==> rank[z] <= rank[y];
      var least := if rank[x] <= rank[z] then x else z;
      assert least in keys && forall y :: y in keys ==> rank[least] <= rank[y];
    }
  }
}
