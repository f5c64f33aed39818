/**
 The collector's device registry (the `__sensors` dict of `Collector`).

 A Python dict iterates in insertion order, and that order decides the order
 of samples within a metric family, so the registry is an ordered list of
 entries. `View` is its meaning as a finite map from device to handle and
 `Distinct` is its invariant: at most one entry per device.
 */
module Registry {
  import opened Wrappers

  /** One registered device and the sensor handle opened for it. */
  datatype Entry<D, H> = Entry(device: D, handle: H)

  type Table<D, H> = seq<Entry<D, H>>

  /** The devices that have an entry. */
  function Keys<D(==), H>(t: Table<D, H>): set<D>
  {
    set i | 0 <= i < |t| :: t[i].device
  }

  /** The table read as a map; a later entry for the same device wins, as with dict assignment. */
  function View<D(==), H>(t: Table<D, H>): map<D, H>
    decreases |t|
  {
    if |t| == 0 then map[]
    else View(t[..|t| - 1])[t[|t| - 1].device := t[|t| - 1].handle]
  }

  /** At most one entry per device. */
  predicate Distinct<D(==), H>(t: Table<D, H>)
  {
    forall i, j | 0 <= i < j < |t| :: t[i].device != t[j].device
  }

  lemma {:induction false} ViewKeys<D, H>(t: Table<D, H>)
    ensures View(t).Keys == Keys(t)
    decreases |t|
  {
    if |t| > 0 {
      var init := t[..|t| - 1];
      ViewKeys(init);
      assert Keys(t) == Keys(init) + {t[|t| - 1].device} by {
        forall d | d in Keys(t) ensures d in Keys(init) + {t[|t| - 1].device} {
          var i :| 0 <= i < |t| && t[i].device == d;
          if i < |t| - 1 { assert init[i] == t[i]; }
        }
        forall d | d in Keys(init) ensures d in Keys(t) {
          var i :| 0 <= i < |init| && init[i].device == d;
          assert t[i] == init[i];
        }
      }
    }
  }

  /** Appending an entry keeps the table distinct exactly when its device is new. */
  lemma DistinctSnoc<D, H>(t: Table<D, H>, e: Entry<D, H>)
    ensures Distinct(t + [e]) <==> Distinct(t) && e.device !in Keys(t)
  {
    var u := t + [e];
    if Distinct(u) {
      forall i | 0 <= i < |t| ensures t[i].device != e.device {
        assert u[i] == t[i] && u[|t|] == e;
      }
      forall i, j | 0 <= i < j < |t| ensures t[i].device != t[j].device {
        assert u[i] == t[i] && u[j] == t[j];
      }
    }
    if Distinct(t) && e.device !in Keys(t) {
      forall i, j | 0 <= i < j < |u| ensures u[i].device != u[j].device {
        assert u[i] == t[i];
        if j < |t| { assert u[j] == t[j]; } else { assert t[i].device in Keys(t); }
      }
    }
  }

  /** Python's `dict.get(device)`: the handle registered for `d`, if any. */
  function Find<D(==), H>(t: Table<D, H>, d: D): (r: Option<H>)
    ensures r.Some? <==> d in View(t)
    ensures r.Some? ==> r.value == View(t)[d]
    decreases |t|
  {
    if |t| == 0 then None
    else if t[|t| - 1].device == d then Some(t[|t| - 1].handle)
    else Find(t[..|t| - 1], d)
  }

  /** Overwrite the handle of every entry for `d`, keeping each entry's position. */
  function Replace<D(==), H>(t: Table<D, H>, d: D, h: H): (r: Table<D, H>)
    ensures |r| == |t|
    ensures forall i | 0 <= i < |t| :: r[i].device == t[i].device
    ensures View(r) == if d in View(t) then View(t)[d := h] else View(t)
    decreases |t|
  {
    if |t| == 0 then []
    else
      var e := t[|t| - 1];
      Replace(t[..|t| - 1], d, h) + [if e.device == d then Entry(d, h) else e]
  }

  /**
   Python's `t[d] = h`: a device already present keeps its position and gets
   the new handle; a new device is appended after every existing entry. The
   collector assigns only devices it has just found absent, so it only ever
   takes the append branch; the other branch completes the dict semantics.
   */
  function Assign<D(==), H>(t: Table<D, H>, d: D, h: H): (r: Table<D, H>)
    ensures View(r) == View(t)[d := h]
    ensures Keys(r) == Keys(t) + {d}
    ensures d !in View(t) ==> r == t + [Entry(d, h)]
    ensures Distinct(t) ==> Distinct(r)
  {
    ViewKeys(t);
    if Find(t, d).Some? then
      var r := Replace(t, d, h);
      ViewKeys(r);
      assert Distinct(t) ==> Distinct(r) by {
        forall i, j | 0 <= i < j < |r| ensures t[i].device == r[i].device && t[j].device == r[j].device { }
      }
      r
    else
      var r := t + [Entry(d, h)];
      ViewKeys(r);
      DistinctSnoc(t, Entry(d, h));
      r
  }

  /** Python's `del t[d]` and the table part of `t.pop(d, None)`: drop every entry for `d`. */
  function Remove<D(==), H>(t: Table<D, H>, d: D): (r: Table<D, H>)
    ensures View(r) == View(t) - {d}
    decreases |t|
  {
    if |t| == 0 then []
    else
      var e := t[|t| - 1];
      var rest := Remove(t[..|t| - 1], d);
      if e.device == d then rest else rest + [e]
  }

  /** Removal keeps the table distinct and takes out exactly the device's key. */
  lemma {:induction false} RemoveKeys<D, H>(t: Table<D, H>, d: D)
    ensures Keys(Remove(t, d)) == Keys(t) - {d}
    ensures Distinct(t) ==> Distinct(Remove(t, d))
    decreases |t|
  {
    ViewKeys(t);
    ViewKeys(Remove(t, d));
    if |t| > 0 {
      var init := t[..|t| - 1];
      var e := t[|t| - 1];
      assert t == init + [e];
      RemoveKeys(init, d);
      ViewKeys(init);
      DistinctSnoc(init, e);
      if e.device != d {
        DistinctSnoc(Remove(init, d), e);
      }
    }
  }

  /** Removing a device that has no entry leaves the table as it was. */
  lemma {:induction false} RemoveAbsent<D, H>(t: Table<D, H>, d: D)
    requires d !in Keys(t)
    ensures Remove(t, d) == t
    decreases |t|
  {
    if |t| > 0 {
      var init := t[..|t| - 1];
      assert Keys(init) <= Keys(t) by {
        forall x | x in Keys(init) ensures x in Keys(t) {
          var i :| 0 <= i < |init| && init[i].device == x;
          assert t[i] == init[i];
        }
      }
      RemoveAbsent(init, d);
      assert t[|t| - 1].device in Keys(t);
      assert t == init + [t[|t| - 1]];
    }
  }

  /** Removing the one entry of a device takes out exactly that entry. */
  lemma {:induction false} RemoveUnique<D, H>(a: Table<D, H>, e: Entry<D, H>, b: Table<D, H>)
    requires e.device !in Keys(a) && e.device !in Keys(b)
    ensures Remove(a + [e] + b, e.device) == a + b
    decreases |b|
  {
    if |b| == 0 {
      assert a + [e] + b == a + [e];
      assert (a + [e])[..|a|] == a;
      RemoveAbsent(a, e.device);
    } else {
      var binit := b[..|b| - 1];
      var x := b[|b| - 1];
      assert Keys(binit) <= Keys(b) by {
        forall y | y in Keys(binit) ensures y in Keys(b) {
          var i :| 0 <= i < |binit| && binit[i].device == y;
          assert b[i] == binit[i];
        }
      }
      assert x.device in Keys(b);
      RemoveUnique(a, e, binit);
      var t := a + [e] + b;
      assert t[..|t| - 1] == a + [e] + binit;
      assert t[|t| - 1] == x;
      assert a + b == (a + binit) + [x];
    }
  }

  /** The entries satisfying `keep`, in their original order. */
  function Keep<D(==), H>(t: Table<D, H>, keep: Entry<D, H> -> bool): (r: Table<D, H>)
    ensures |r| <= |t|
    ensures Keys(r) <= Keys(t)
    decreases |t|
  {
    if |t| == 0 then []
    else
      var init := t[..|t| - 1];
      var rest := Keep(init, keep);
      var e := t[|t| - 1];
      assert Keys(init) <= Keys(t) by {
        forall y | y in Keys(init) ensures y in Keys(t) {
          var i :| 0 <= i < |init| && init[i].device == y;
          assert t[i] == init[i];
        }
      }
      if keep(e) then
        assert Keys(rest + [e]) <= Keys(rest) + {e.device} by {
          forall y | y in Keys(rest + [e]) ensures y in Keys(rest) + {e.device} {
            var i :| 0 <= i < |rest + [e]| && (rest + [e])[i].device == y;
            if i < |rest| { assert (rest + [e])[i] == rest[i]; }
          }
        }
        assert e.device in Keys(t);
        rest + [e]
      else rest
  }

  /**
   On a distinct table, `Keep` maps exactly the kept devices, each to its own
   handle, and keeps the table distinct.
   */
  lemma {:induction false} KeepView<D, H>(t: Table<D, H>, keep: Entry<D, H> -> bool)
    requires Distinct(t)
    ensures Distinct(Keep(t, keep))
    ensures forall i | 0 <= i < |t| ::
      if keep(t[i]) then t[i].device in View(Keep(t, keep)) && View(Keep(t, keep))[t[i].device] == t[i].handle
      else t[i].device !in View(Keep(t, keep))
    decreases |t|
  {
    if |t| > 0 {
      var init := t[..|t| - 1];
      var e := t[|t| - 1];
      assert t == init + [e];
      DistinctSnoc(init, e);
      KeepView(init, keep);
      var rest := Keep(init, keep);
      ViewKeys(rest);
      if keep(e) {
        DistinctSnoc(rest, e);
      }
      forall i | 0 <= i < |t|
        ensures if keep(t[i]) then t[i].device in View(Keep(t, keep)) && View(Keep(t, keep))[t[i].device] == t[i].handle
                else t[i].device !in View(Keep(t, keep))
      {
        if i < |t| - 1 {
          assert t[i] == init[i];
          assert t[i].device != e.device;
        }
      }
    }
  }

  /** In a distinct table, the device of entry `i` has no other entry before or after it. */
  lemma DistinctSplit<D, H>(t: Table<D, H>, i: int)
    requires Distinct(t) && 0 <= i < |t|
    ensures t[i].device !in Keys(t[..i]) && t[i].device !in Keys(t[i + 1..])
  {
  }
}
