/** Definitions shared by every component of the runtime model. */
module Base {

  /** A value that may be absent: how the model writes a pointer argument that may be NULL. */
  datatype Option<+T> = None | Some(value: T)

  /**
   * An event as the runtime sees it: the id of the component that raised it
   * and an event code. The timestamp and the context pointer a component
   * attaches are never inspected by the modelled logic and are omitted.
   */
  datatype Event = Event(source: int, value: int)

  /** Number of events in `es` carrying event code `value`. */
  function CountValue(es: seq<Event>, value: int): (n: nat)
    ensures n <= |es|
    ensures n == 0 <==> forall i :: 0 <= i < |es| ==> es[i].value != value
  {
    if |es| == 0 then 0
    else (if es[0].value == value then 1 else 0) + CountValue(es[1..], value)
  }

  lemma {:induction false} CountValueAppend(a: seq<Event>, b: seq<Event>, value: int)
    ensures CountValue(a + b, value) == CountValue(a, value) + CountValue(b, value)
  {
    if |a| == 0 {
      assert a + b == b;
    } else {
      assert (a + b)[1..] == a[1..] + b;
      CountValueAppend(a[1..], b, value);
    }
  }

  /** The count over at most two events, position by position. */
  lemma CountValueShort(es: seq<Event>, value: int)
    requires |es| <= 2
    ensures CountValue(es, value) ==
      (if |es| >= 1 && es[0].value == value then 1 else 0) + (if |es| == 2 && es[1].value == value then 1 else 0)
  {
    if |es| == 2 {
      assert es[1..][1..] == [];
    }
  }

  /** A positive multiple of d is at least d. */
  lemma MulAtLeast(k: int, d: int)
    requires k >= 1 && d > 0
    ensures k * d >= d
  {
    assert k * d == (k - 1) * d + d;
  }

  /** Quotient and remainder are determined by any decomposition with the remainder in range. */
  lemma DivUnique(n: int, d: int, q: int, r: int)
    requires d > 0 && 0 <= r < d && n == q * d + r
    ensures n / d == q && n % d == r
  {
    var q' := n / d;
    var r' := n % d;
    assert (q - q') * d == r' - r;
    if q > q' {
      MulAtLeast(q - q', d);
    } else if q < q' {
      MulAtLeast(q' - q, d);
    }
  }
}
