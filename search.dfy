/**
 * The forward search over valid IDs, offered twice: the resumable cursor `IDIterator`
 * and the generator `id_generator`.
 *
 * `Scan` is the search one `__next__` call performs, stated as a function of the
 * cursor; `ValidFrom` is the sequence the generator yields; `Iterate` is what K
 * successive `__next__` calls return. The lemmas pin each of them to an independent
 * description (least valid ID, all valid IDs up to 999999999) and to each other.
 */
module IdSearch {
  import opened IdChecksum

  // ---------------------------------------------------------------------------
  // One `__next__` call as a function of the cursor

  /**
   * The scan from cursor `c`: the first valid ID at or after `c`, or the
   * `ValueError` that `check_id_valid` raises on the first candidate outside
   * 100000000..999999999.
   */
  function Scan(c: int): Result<int>
    decreases MaxId + 1 - c
  {
    match CheckIdValid(c)
    case Err(e) => Err(e)
    case Ok(valid) => if valid then Ok(c) else Scan(c + 1)
  }

  /** What the scan returns is the least valid ID at or after the cursor. */
  lemma {:induction false} ScanFindsLeastValid(c: int)
    requires Scan(c).Ok?
    ensures MinId <= c <= Scan(c).value && IsValid(Scan(c).value)
    ensures forall k :: c <= k < Scan(c).value ==> !IsValid(k)
    decreases MaxId + 1 - c
  {
    hide CheckIdValid;
    if !IsValid(c) {
      ScanFindsLeastValid(c + 1);
    }
  }

  /** The least valid ID at or after an in-range cursor is what the scan returns. */
  lemma {:induction false} LeastValidIsScanned(c: int, m: int)
    requires MinId <= c <= m && IsValid(m)
    requires forall k :: c <= k < m ==> !IsValid(k)
    ensures Scan(c) == Ok(m)
    decreases m - c
  {
    hide CheckIdValid;
    if c < m {
      assert InRange(c) && !IsValid(c);
      assert Scan(c) == Scan(c + 1);
      LeastValidIsScanned(c + 1, m);
    }
  }

  /** The scan fails exactly when no valid ID lies between the cursor and 999999999. */
  lemma {:induction false} ScanFailsIffNoneLeft(c: int)
    ensures Scan(c).Err? <==> !InRange(c) || forall k :: c <= k <= MaxId ==> !IsValid(k)
    decreases MaxId + 1 - c
  {
    hide CheckIdValid;
    if InRange(c) && !IsValid(c) {
      ScanFailsIffNoneLeft(c + 1);
    }
  }

  /** Some valid ID follows every in-range cursor below 999999999, at or before 999999998. */
  lemma ValidIdAhead(c: int) returns (m: int)
    requires MinId <= c < MaxId
    ensures c <= m < MaxId && IsValid(m)
  {
    hide CheckIdValid;
    var p, d := c / 10, c % 10;
    assert c == 10 * p + d;
    if d <= CheckDigit(p) {
      m := 10 * p + CheckDigit(p);
      DecadeHasOneValid(p, CheckDigit(p));
      if p == MaxId / 10 {
        TopCheckDigit();
      }
    } else {
      if p == MaxId / 10 {
        TopCheckDigit();
        assert false;
      }
      m := 10 * (p + 1) + CheckDigit(p + 1);
      DecadeHasOneValid(p + 1, CheckDigit(p + 1));
      if p + 1 == MaxId / 10 {
        TopCheckDigit();
      }
    }
  }

  /**
   * From an in-range cursor the scan fails only when the cursor is 999999999: then it
   * reaches 1000000000 and `check_id_valid` raises, where the docstring promises
   * `StopIteration`.
   */
  lemma ScanFailsOnlyAtTop(c: int)
    requires InRange(c)
    ensures Scan(c).Err? <==> c == MaxId
  {
    hide CheckIdValid;
    ScanFailsIffNoneLeft(c);
    if c < MaxId {
      var m := ValidIdAhead(c);
    } else {
      LastValidId();
    }
  }

  // ---------------------------------------------------------------------------
  // The resumable cursor

  /** `IDIterator`: its one field is the next candidate to test. */
  class IdIterator {
    var id: int

    /** `__init__` stores the start as given; nothing checks it here. */
    constructor (start: int)
      ensures id == start
    {
      id := start;
    }

    /** `__iter__` hands back the iterator itself. */
    method Iter() returns (it: IdIterator)
      ensures it == this
    {
      it := this;
    }

    /**
     * `__next__`: tests the cursor, then the next integer, and so on. On a valid ID it
     * returns it and leaves the cursor one past it; when `check_id_valid` raises, the
     * error propagates with the cursor on the candidate that raised.
     */
    method Next() returns (r: Result<int>)
      modifies this
      ensures r == Scan(old(id))
      ensures old(id) <= id
      ensures r.Ok? ==> old(id) <= r.value && IsValid(r.value) && id == r.value + 1
      ensures r.Ok? ==> forall k :: old(id) <= k < r.value ==> !IsValid(k)
      ensures r.Err? ==> r.error == ValueError
      ensures r.Err? ==> id == if InRange(old(id)) then MaxId + 1 else old(id)
    {
      hide CheckIdValid;
      if Scan(id).Ok? {
        ScanFindsLeastValid(id);
      }
      while true
        invariant Scan(id) == Scan(old(id))
        invariant InRange(old(id)) ==> old(id) <= id <= MaxId + 1
        invariant !InRange(old(id)) ==> id == old(id)
        decreases MaxId + 1 - id
      {
        var checked := CheckIdValid(id);
        if checked.Err? {
          return Err(checked.error);
        }
        if checked.value {
          var current := id;
          id := id + 1;
          return Ok(current);
        } else {
          id := id + 1;
        }
      }
    }
  }

  /**
   * The results of `k` successive `__next__` calls from cursor `c`, or the error of
   * the first call that raises.
   */
  function Iterate(c: int, k: nat): Result<seq<int>>
    decreases k
  {
    if k == 0 then Ok([])
    else match Scan(c)
      case Err(e) => Err(e)
      case Ok(m) =>
        match Iterate(m + 1, k - 1)
        case Err(e) => Err(e)
        case Ok(rest) => Ok([m] + rest)
  }

  /** Successive `__next__` results are valid, at or after the start, and strictly increasing. */
  lemma {:induction false} IterateIncreasing(c: int, k: nat)
    requires Iterate(c, k).Ok?
    ensures var xs := Iterate(c, k).value;
      && |xs| == k
      && (forall i :: 0 <= i < k ==> c <= xs[i] && IsValid(xs[i]))
      && (forall i, j :: 0 <= i < j < k ==> xs[i] < xs[j])
    decreases k
  {
    hide CheckIdValid;
    if k > 0 {
      var m := Scan(c).value;
      ScanFindsLeastValid(c);
      IterateIncreasing(m + 1, k - 1);
    }
  }

  // ---------------------------------------------------------------------------
  // The generator

  /** Every valid ID from `c` up to 999999999, in increasing order. */
  function ValidFrom(c: int): seq<int>
    decreases MaxId + 1 - c
  {
    if c > MaxId then []
    else (if IsValid(c) then [c] else []) + ValidFrom(c + 1)
  }

  /** `ValidFrom(c)` holds exactly the valid IDs between `c` and 999999999. */
  lemma {:induction false} ValidFromMembers(c: int)
    ensures forall k :: k in ValidFrom(c) <==> c <= k <= MaxId && IsValid(k)
    decreases MaxId + 1 - c
  {
    hide CheckIdValid;
    if c <= MaxId {
      ValidFromMembers(c + 1);
    }
  }

  /** `ValidFrom(c)` is strictly increasing, so it holds no duplicates. */
  lemma {:induction false} ValidFromIncreasing(c: int)
    ensures forall i, j :: 0 <= i < j < |ValidFrom(c)| ==> ValidFrom(c)[i] < ValidFrom(c)[j]
    decreases MaxId + 1 - c
  {
    hide CheckIdValid;
    if c <= MaxId {
      ValidFromIncreasing(c + 1);
      ValidFromMembers(c + 1);
      var rest := ValidFrom(c + 1);
      assert forall j :: 0 <= j < |rest| ==> rest[j] in rest;
    }
  }

  /**
   * From an in-range cursor, the scan finds the head of `ValidFrom`, and the rest
   * of it starts one past that head; a failing scan leaves nothing to yield.
   */
  lemma {:induction false} ScanHeadsValidFrom(c: int)
    requires MinId <= c
    ensures Scan(c).Ok? ==> ValidFrom(c) == [Scan(c).value] + ValidFrom(Scan(c).value + 1)
    ensures Scan(c).Err? ==> ValidFrom(c) == []
    decreases MaxId + 1 - c
  {
    hide CheckIdValid;
    if InRange(c) && !IsValid(c) {
      ScanHeadsValidFrom(c + 1);
    }
  }

  /** How a run of the generator ends: `StopIteration`, or an exception. */
  datatype End = Exhausted | Raised(error: Error)

  /** Everything a consumer pulls from the generator: the items, then how it ends. */
  datatype Stream = Stream(items: seq<int>, end: End)

  /**
   * `id_generator(start)`, pulled to its end. A start whose `str` is not nine
   * characters is refused at once; otherwise a local cursor walks up to 999999999,
   * emitting every candidate `check_id_valid` accepts.
   */
  method IdGenerator(start: int) returns (out: Stream)
    ensures InRange(start) ==> out == Stream(ValidFrom(start), Exhausted)
    ensures !InRange(start) ==> out == Stream([], Raised(ValueError))
  {
    hide CheckIdValid, IntToString;
    IntToStringNine(start);
    if |IntToString(start)| != 9 {
      return Stream([], Raised(ValueError));
    }
    var id := start;
    var items: seq<int> := [];
    while id <= MaxId
      invariant InRange(start) ==> start <= id <= MaxId + 1
      invariant InRange(start) ==> items + ValidFrom(id) == ValidFrom(start)
      invariant !InRange(start) ==> id == start && items == []
      decreases MaxId + 1 - id
    {
      var checked := CheckIdValid(id);
      if checked.Err? {
        assert !InRange(start) && items == [];
        assert checked.error == ValueError;
        return Stream(items, Raised(checked.error));
      }
      ghost var before := items;
      if checked.value {
        items := items + [id];
      }
      assert items + ValidFrom(id + 1) == before + ValidFrom(id);
      id := id + 1;
    }
    assert ValidFrom(id) == [];
    return Stream(items, Exhausted);
  }

  // ---------------------------------------------------------------------------
  // The two interfaces agree

  /**
   * For the same start, the first `k` results of `__next__` are the first `k` items
   * of the generator, as long as the generator yields at least `k`.
   */
  lemma {:induction false} IteratorMatchesGenerator(s: int, k: nat)
    requires MinId <= s
    requires k <= |ValidFrom(s)|
    ensures Iterate(s, k) == Ok(ValidFrom(s)[..k])
    decreases k
  {
    hide CheckIdValid;
    if k > 0 {
      ScanHeadsValidFrom(s);
      var m := Scan(s).value;
      ScanFindsLeastValid(s);
      IteratorMatchesGenerator(m + 1, k - 1);
      assert ValidFrom(s)[..k] == [m] + ValidFrom(m + 1)[..k - 1];
    }
  }

  /**
   * Where the generator stops, the iterator raises: one call past the generator's
   * last item fails with `ValueError`, not `StopIteration`.
   */
  lemma {:induction false} IteratorRaisesWhereGeneratorStops(s: int)
    requires MinId <= s
    ensures Iterate(s, |ValidFrom(s)| + 1) == Err(ValueError)
    decreases |ValidFrom(s)|
  {
    hide CheckIdValid;
    ScanHeadsValidFrom(s);
    if Scan(s).Ok? {
      var m := Scan(s).value;
      ScanFindsLeastValid(s);
      IteratorRaisesWhereGeneratorStops(m + 1);
    }
  }

  /** On a start outside 100000000..999999999 both interfaces fail on the first pull. */
  lemma BothFailOnBadStart(s: int, k: nat)
    requires !InRange(s) && k >= 1
    ensures Iterate(s, k) == Err(ValueError)
  {
    hide CheckIdValid;
  }
}
