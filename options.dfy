/** Python's `None` as a value: a column that is NULL, a dict key that is
    missing, a function that found nothing. */
module Options {

  datatype Option<T> = None | Some(value: T) {

    /** The value, or `default` when there is none (`x or default`). */
    function GetOr(default: T): T {
      match this
      case Some(v) => v
      case None => default
    }
  }

  /** SQL `COALESCE(stored, incoming)`: the stored value unless it is NULL. */
  function Coalesce<T>(stored: Option<T>, incoming: Option<T>): (r: Option<T>)
    ensures stored.Some? ==> r == stored
    ensures stored.None? ==> r == incoming
  {
    if stored.Some? then stored else incoming
  }

  /** Python truthiness of an optional text: present and non-empty. */
  predicate Truthy(o: Option<string>) {
    o.Some? && o.value != []
  }

  /** The first present value of a sequence tried in order: `if r: return r`
      repeated down a chain of attempts. */
  function FirstSome<T(==)>(xs: seq<Option<T>>): (r: Option<T>)
    ensures r.None? <==> forall i :: 0 <= i < |xs| ==> xs[i].None?
    ensures r.Some? ==> exists i :: 0 <= i < |xs| && xs[i] == r && forall j :: 0 <= j < i ==> xs[j].None?
  {
    if xs == [] then None
    else if xs[0].Some? then xs[0]
    else
      var r := FirstSome(xs[1..]);
      assert forall i :: 1 <= i < |xs| ==> xs[i] == xs[1..][i - 1];
      if r.Some? then
        var k :| 0 <= k < |xs[1..]| && xs[1..][k] == r && forall j :: 0 <= j < k ==> xs[1..][j].None?;
        assert xs[k + 1] == r;
        r
      else r
  }

  /** The first present value is the one at the first index that has one. */
  lemma FirstSomeAt<T>(xs: seq<Option<T>>, k: nat)
    requires k < |xs| && xs[k].Some?
    requires forall j :: 0 <= j < k ==> xs[j].None?
    ensures FirstSome(xs) == xs[k]
  {
    assert FirstSome(xs).Some?;
    var i :| 0 <= i < |xs| && xs[i] == FirstSome(xs) && forall j :: 0 <= j < i ==> xs[j].None?;
    assert !(i < k) && !(k < i);
  }
}
