/** Option and Result, the two failure-carrying shapes the Rust code uses. */
module Base {

  datatype Option<+T> = None | Some(value: T) {
    /** `Option::unwrap_or` */
    function GetOr(default: T): T {
      match this
      case Some(v) => v
      case None => default
    }
  }

  datatype Result<+T, +E> = Ok(value: T) | Err(error: E)

  /**
   * `out` is what `filter_map` keeps of `opts`: the values at the strictly
   * increasing positions `idx`, and those are all the positions holding one.
   */
  ghost predicate Selection<T>(out: seq<T>, opts: seq<Option<T>>, idx: seq<nat>) {
    && |idx| == |out|
    && (forall k :: 0 <= k < |idx| ==> idx[k] < |opts| && opts[idx[k]] == Some(out[k]))
    && (forall k, l :: 0 <= k < l < |idx| ==> idx[k] < idx[l])
    && (forall i :: 0 <= i < |opts| && opts[i].Some? ==> i in idx)
  }

  /** A missing value in front of the options shifts every selected position by one. */
  lemma SelectionShift<T>(opts: seq<Option<T>>, rest: seq<T>, prev: seq<nat>)
    requires Selection(rest, opts, prev)
    ensures Selection(rest, [None] + opts, seq(|prev|, k requires 0 <= k < |prev| => prev[k] + 1))
  {
    var idx := seq(|prev|, k requires 0 <= k < |prev| => prev[k] + 1);
    var all := [None] + opts;
    forall k | 0 <= k < |idx| ensures idx[k] < |all| && all[idx[k]] == Some(rest[k]) {
      assert all[idx[k]] == opts[prev[k]];
    }
    forall i | 0 <= i < |all| && all[i].Some? ensures i in idx {
      assert all[i] == opts[i - 1];
      var m :| 0 <= m < |prev| && prev[m] == i - 1;
      assert idx[m] == i;
    }
  }

  /** A value in front of the options goes in front of the selection, at position 0. */
  lemma SelectionPrepend<T>(v: T, opts: seq<Option<T>>, rest: seq<T>, prev: seq<nat>)
    requires Selection(rest, [None] + opts, prev)
    ensures Selection([v] + rest, [Some(v)] + opts, [0] + prev)
  {
    var idx := [0] + prev;
    var out := [v] + rest;
    var all := [Some(v)] + opts;
    forall k | 0 <= k < |idx| ensures idx[k] < |all| && all[idx[k]] == Some(out[k]) {
      if k > 0 {
        assert idx[k] == prev[k - 1] && out[k] == rest[k - 1];
        assert prev[k - 1] != 0 by {
          assert ([None] + opts)[0] == None;
        }
      }
    }
    forall k, l | 0 <= k < l < |idx| ensures idx[k] < idx[l] {
      if k > 0 {
        assert idx[k] == prev[k - 1] && idx[l] == prev[l - 1];
      } else {
        assert ([None] + opts)[0] == None;
        assert idx[l] == prev[l - 1];
      }
    }
    forall i | 0 <= i < |all| && all[i].Some? ensures i in idx {
      if i > 0 {
        assert ([None] + opts)[i] == all[i];
        assert i in prev;
      } else {
        assert idx[0] == 0;
      }
    }
  }

  /** A value in front of the options goes in front of the selection; the other positions shift by one. */
  lemma SelectionCons<T>(o: Option<T>, opts: seq<Option<T>>, rest: seq<T>, prev: seq<nat>)
    requires Selection(rest, opts, prev)
    ensures var shifted := seq(|prev|, k requires 0 <= k < |prev| => prev[k] + 1);
      if o.Some? then Selection([o.value] + rest, [o] + opts, [0] + shifted)
      else Selection(rest, [o] + opts, shifted)
  {
    var shifted := seq(|prev|, k requires 0 <= k < |prev| => prev[k] + 1);
    SelectionShift(opts, rest, prev);
    if o.Some? {
      SelectionPrepend(o.value, opts, rest, shifted);
    }
  }

  /** A value after the options goes after the selection, at the new last position. */
  lemma SelectionSnoc<T>(opts: seq<Option<T>>, o: Option<T>, init: seq<T>, prev: seq<nat>)
    requires Selection(init, opts, prev)
    ensures Selection(init + (if o.Some? then [o.value] else []), opts + [o],
                      prev + (if o.Some? then [|opts|] else []))
  {
    var idx := prev + (if o.Some? then [|opts|] else []);
    var out := init + (if o.Some? then [o.value] else []);
    var all := opts + [o];
    forall k | 0 <= k < |idx| ensures idx[k] < |all| && all[idx[k]] == Some(out[k]) {
      if k < |prev| {
        assert idx[k] == prev[k] && out[k] == init[k];
      }
    }
    forall i | 0 <= i < |all| && all[i].Some? ensures i in idx {
      if i < |opts| {
        assert all[i] == opts[i];
        assert i in prev;
      } else {
        assert idx[|prev|] == i;
      }
    }
  }

  /** Two selections side by side: the second one's positions move past the first one's options. */
  lemma SelectionAppend<T>(a: seq<T>, oa: seq<Option<T>>, ia: seq<nat>, b: seq<T>, ob: seq<Option<T>>, ib: seq<nat>)
    requires Selection(a, oa, ia) && Selection(b, ob, ib)
    ensures Selection(a + b, oa + ob, ia + seq(|ib|, k requires 0 <= k < |ib| => ib[k] + |oa|))
  {
    var moved := seq(|ib|, k requires 0 <= k < |ib| => ib[k] + |oa|);
    var idx := ia + moved;
    var out := a + b;
    var all := oa + ob;
    forall k | 0 <= k < |idx| ensures idx[k] < |all| && all[idx[k]] == Some(out[k]) {
      if k < |ia| {
        assert idx[k] == ia[k] && out[k] == a[k];
      } else {
        assert idx[k] == ib[k - |ia|] + |oa| && out[k] == b[k - |ia|];
        assert all[idx[k]] == ob[ib[k - |ia|]];
      }
    }
    forall k, l | 0 <= k < l < |idx| ensures idx[k] < idx[l] {
      if l < |ia| {
        assert idx[k] == ia[k] && idx[l] == ia[l];
      } else if k < |ia| {
        assert idx[k] == ia[k] && idx[l] == moved[l - |ia|];
      } else {
        assert idx[k] == moved[k - |ia|] && idx[l] == moved[l - |ia|];
      }
    }
    forall i | 0 <= i < |all| && all[i].Some? ensures i in idx {
      if i < |oa| {
        assert all[i] == oa[i];
        var m :| 0 <= m < |ia| && ia[m] == i;
        assert idx[m] == i;
      } else {
        assert all[i] == ob[i - |oa|];
        var m :| 0 <= m < |ib| && ib[m] == i - |oa|;
        assert idx[|ia| + m] == i;
      }
    }
  }
}
