/**
 * The admission limiter: how many images that were not on screen in the
 * previous render pass may be shown in the current one.
 */
module Limiter {
  import opened Common

  /**
   * `Inner`: the image ids shown in this pass and in the previous one, how
   * many ids new to this pass were admitted, and whether one was refused.
   */
  datatype View = View(current: set<u64>, preview: set<u64>, newCount: u64, limited: bool)

  /** The counter stays within `maxNew` and counts exactly the admitted ids the previous pass did not show. */
  ghost predicate Bounded(v: View, maxNew: u64) {
    v.newCount <= maxNew && v.newCount as int == |v.current - v.preview|
  }

  /** The limiter after one `limit`, and whether the image may be shown. */
  datatype Decision = Decision(next: View, admitted: bool)

  /**
   * `limit` on the limiter value: ids from the previous pass and ids already
   * admitted in this one always pass; a new id passes while fewer than
   * `maxNew` new ids were admitted; otherwise it is refused and the pass is
   * marked limited.
   */
  function Admit(v: View, maxNew: u64, id: u64): (d: Decision)
    ensures d.admitted <==> id in v.preview || id in v.current || v.newCount < maxNew
    ensures d.next.preview == v.preview
    ensures d.next.current == if d.admitted then v.current + {id} else v.current
    ensures d.next.newCount == if d.admitted && id !in v.preview && id !in v.current then v.newCount + 1 else v.newCount
    ensures d.next.limited == (v.limited || !d.admitted)
  {
    if id in v.preview then Decision(v.(current := v.current + {id}), true)
    else if id in v.current then Decision(v, true)
    else if v.newCount < maxNew then Decision(v.(current := v.current + {id}, newCount := v.newCount + 1), true)
    else Decision(v.(limited := true), false)
  }

  /** `limit` keeps the counter bounded and equal to the number of new ids admitted. */
  lemma AdmitBounded(v: View, maxNew: u64, id: u64)
    requires Bounded(v, maxNew)
    ensures Bounded(Admit(v, maxNew, id).next, maxNew)
  {
    var n := Admit(v, maxNew, id).next;
    if id in v.preview {
      assert n.current - n.preview == v.current - v.preview;
    } else if id !in v.current && v.newCount < maxNew {
      assert n.current - n.preview == (v.current - v.preview) + {id};
    }
  }

  /** Asking again for an id admitted in this pass is admitted and changes nothing. */
  lemma AdmitIdempotent(v: View, maxNew: u64, id: u64)
    requires Admit(v, maxNew, id).admitted
    ensures var n := Admit(v, maxNew, id).next;
      Admit(n, maxNew, id) == Decision(n, true)
  {
  }

  /** The limiter after `view_finish`, and whether a redraw was requested. */
  datatype Rotation = Rotation(next: View, redraw: bool)

  /**
   * `view_finish` on the limiter value: this pass becomes the previous one,
   * the new pass starts empty and unlimited, and a redraw is requested
   * exactly when an image was refused.
   */
  function Finish(v: View): (r: Rotation)
    ensures r.next.preview == v.current && r.next.current == {}
    ensures r.next.newCount == 0 && !r.next.limited
    ensures r.redraw == v.limited
  {
    Rotation(View({}, v.current, 0, false), v.limited)
  }

  /** The limiter value after a whole pass of `limit` calls, and each answer in order. */
  datatype Pass = Pass(view: View, answers: seq<bool>)

  function AdmitAll(v: View, maxNew: u64, ids: seq<u64>): (p: Pass)
    ensures |p.answers| == |ids|
    decreases |ids|
  {
    if ids == [] then Pass(v, [])
    else
      var d := Admit(v, maxNew, ids[0]);
      var rest := AdmitAll(d.next, maxNew, ids[1..]);
      Pass(rest.view, [d.admitted] + rest.answers)
  }

  /**
   * Over a pass: the previous pass is untouched, what was admitted before
   * stays admitted, every id of the previous pass is admitted, every
   * admitted id is in the current set, and a refusal marks the pass limited.
   */
  lemma {:induction false} AdmitAllAnswers(v: View, maxNew: u64, ids: seq<u64>)
    ensures var p := AdmitAll(v, maxNew, ids);
      && p.view.preview == v.preview
      && v.current <= p.view.current
      && (v.limited ==> p.view.limited)
      && (forall i :: 0 <= i < |ids| && ids[i] in v.preview ==> p.answers[i])
      && (forall i :: 0 <= i < |ids| && p.answers[i] ==> ids[i] in p.view.current)
      && (forall i :: 0 <= i < |ids| && !p.answers[i] ==> p.view.limited)
    decreases |ids|
  {
    if ids != [] {
      var d := Admit(v, maxNew, ids[0]);
      AdmitAllAnswers(d.next, maxNew, ids[1..]);
      var p := AdmitAll(v, maxNew, ids);
      var rest := AdmitAll(d.next, maxNew, ids[1..]);
      assert p.answers == [d.admitted] + rest.answers;
      assert forall i :: 1 <= i < |ids| ==> ids[i] == ids[1..][i - 1] && p.answers[i] == rest.answers[i - 1];
    }
  }

  /** A pass of `limit` calls keeps the counter bounded. */
  lemma {:induction false} AdmitAllBounded(v: View, maxNew: u64, ids: seq<u64>)
    requires Bounded(v, maxNew)
    ensures Bounded(AdmitAll(v, maxNew, ids).view, maxNew)
    decreases |ids|
  {
    if ids != [] {
      AdmitBounded(v, maxNew, ids[0]);
      AdmitAllBounded(Admit(v, maxNew, ids[0]).next, maxNew, ids[1..]);
    }
  }

  /** The ids a pass admitted. */
  ghost function Admitted(ids: seq<u64>, answers: seq<bool>): set<u64>
    requires |answers| == |ids|
  {
    set i | 0 <= i < |ids| && answers[i] :: ids[i]
  }

  /**
   * A pass that starts after `view_finish` shows at most `maxNew` images
   * that the previous pass did not show.
   */
  lemma PassAdmitsAtMostMaxNew(v: View, maxNew: u64, ids: seq<u64>)
    ensures var start := Finish(v).next; var p := AdmitAll(start, maxNew, ids);
      |Admitted(ids, p.answers) - start.preview| <= maxNew as int
  {
    var start := Finish(v).next;
    var p := AdmitAll(start, maxNew, ids);
    AdmitAllAnswers(start, maxNew, ids);
    AdmitAllBounded(start, maxNew, ids);
    var unseen := Admitted(ids, p.answers) - start.preview;
    assert unseen <= p.view.current - p.view.preview;
    SubsetSize(unseen, p.view.current - p.view.preview);
  }

  lemma {:induction false} SubsetSize(a: set<u64>, b: set<u64>)
    requires a <= b
    ensures |a| <= |b|
  {
    assert |b| == |a| + |b - a| by {
      assert b == a + (b - a);
    }
  }

  /**
   * Two consecutive passes, with ids 1..6: with room for two new images and
   * 1, 2 shown before, 1 2 3 4 5 gives yes yes yes yes no and asks for a
   * redraw; the next pass, with room for one, admits 5 and refuses 6.
   */
  lemma Scenario()
    ensures var first := AdmitAll(View({}, {1, 2}, 0, false), 2, [1, 2, 3, 4, 5]);
      && first.answers == [true, true, true, true, false]
      && Finish(first.view).redraw
      && Finish(first.view).next.preview == {1, 2, 3, 4}
      && AdmitAll(Finish(first.view).next, 1, [5, 6]).answers == [true, false]
  {
  }

  /** `ImgLimiter`: the limiter state behind its lock, its quota and its channel. */
  class ImgLimiter {
    var currentView: set<u64>
    var previewView: set<u64>
    var newCount: u64
    var limited: bool
    const maxNew: u64
    const sender: Channel

    function Snapshot(): View
      reads this
    {
      View(currentView, previewView, newCount, limited)
    }

    ghost predicate Valid()
      reads this
    {
      Bounded(Snapshot(), maxNew)
    }

    /** `ImgLimiter::new`: both passes empty, nothing admitted or refused yet. */
    constructor (maxNew: u64, sender: Channel)
      ensures Valid()
      ensures currentView == {} && previewView == {} && newCount == 0 && !limited
      ensures this.maxNew == maxNew && this.sender == sender
    {
      currentView, previewView, newCount, limited := {}, {}, 0, false;
      this.maxNew := maxNew;
      this.sender := sender;
    }

    /** `limit`: the handle back if the image may be shown in this pass. */
    method Limit(handle: Handle) returns (r: Option<Handle>)
      requires Valid()
      modifies this
      ensures Valid()
      ensures var d := Admit(old(Snapshot()), maxNew, handle.id);
        Snapshot() == d.next && r == if d.admitted then Some(handle) else None
    {
      AdmitBounded(Snapshot(), maxNew, handle.id);
      if handle.id in previewView {
        currentView := currentView + {handle.id};
        return Some(handle);
      }
      if handle.id in currentView {
        return Some(handle);
      }
      if newCount < maxNew {
        currentView := currentView + {handle.id};
        newCount := newCount + 1;
        return Some(handle);
      }
      limited := true;
      r := None;
    }

    /** `view_finish`: rotate the passes and, if an image was refused, ask for a redraw. */
    method ViewFinish()
      requires Valid()
      modifies this, sender
      ensures Valid()
      ensures Snapshot() == Finish(old(Snapshot())).next
      ensures sender.sent == old(sender.sent) + if old(limited) then [NoneMsg] else []
    {
      previewView, currentView := currentView, {};
      newCount := 0;
      if limited {
        sender.Send(NoneMsg);
      }
      limited := false;
    }
  }
}
