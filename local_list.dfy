/** The list pages' local state after a delete: `xs.filter(x => x.id !== id)`. */
module LocalList {
  import opened Backend

  /** How a list page's delete handler ends: the confirmation was declined,
      the table delete failed, or the row was deleted and dropped locally. */
  datatype DeleteOutcome = Cancelled | DeleteFailed | Deleted

  /** The entries whose id is not `id`, in their order. */
  function Without<R>(xs: seq<R>, idOf: R -> Id, id: Id): (r: seq<R>)
    ensures |r| <= |xs|
  {
    if xs == [] then []
    else (if idOf(xs[0]) == id then [] else [xs[0]]) + Without(xs[1..], idOf, id)
  }

  /** An entry is kept exactly when it was there and has another id. */
  lemma {:induction false} WithoutMember<R>(xs: seq<R>, idOf: R -> Id, id: Id, x: R)
    ensures x in Without(xs, idOf, id) <==> x in xs && idOf(x) != id
  {
    if xs != [] {
      WithoutMember(xs[1..], idOf, id, x);
      assert xs == [xs[0]] + xs[1..];
    }
  }

  /** Filtering works piece by piece, so the kept entries keep their order. */
  lemma {:induction false} WithoutAppend<R>(a: seq<R>, b: seq<R>, idOf: R -> Id, id: Id)
    ensures Without(a + b, idOf, id) == Without(a, idOf, id) + Without(b, idOf, id)
  {
    if a == [] {
      assert a + b == b;
    } else {
      assert (a + b)[0] == a[0] && (a + b)[1..] == a[1..] + b;
      WithoutAppend(a[1..], b, idOf, id);
    }
  }

  /** A list without the id is left as it is. */
  lemma {:induction false} WithoutAbsent<R>(xs: seq<R>, idOf: R -> Id, id: Id)
    requires forall i :: 0 <= i < |xs| ==> idOf(xs[i]) != id
    ensures Without(xs, idOf, id) == xs
  {
    if xs != [] {
      WithoutAbsent(xs[1..], idOf, id);
    }
  }

  /** Deleting the same id twice drops nothing more. */
  lemma WithoutIdempotent<R>(xs: seq<R>, idOf: R -> Id, id: Id)
    ensures Without(Without(xs, idOf, id), idOf, id) == Without(xs, idOf, id)
  {
    var r := Without(xs, idOf, id);
    forall i | 0 <= i < |r| ensures idOf(r[i]) != id {
      WithoutMember(xs, idOf, id, r[i]);
    }
    WithoutAbsent(r, idOf, id);
  }

  /** A listed id makes the list shorter. */
  lemma {:induction false} WithoutShrinks<R>(xs: seq<R>, idOf: R -> Id, id: Id, k: nat)
    requires k < |xs| && idOf(xs[k]) == id
    ensures |Without(xs, idOf, id)| < |xs|
  {
    if k > 0 {
      WithoutShrinks(xs[1..], idOf, id, k - 1);
    }
  }
}
