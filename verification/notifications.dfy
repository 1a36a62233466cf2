/** The notification slot of showNotification: the elements of class
    "notification" attached to the document, and the removal timer each
    one schedules. Styling and the slide-in animation are presentation and
    are not modelled; each removal timer is an explicit step. */
module Notifications {

  /** One notification element: an identity (the element object), its
      text and its `type` ("info", "success" or "error"). */
  datatype Notification = Notification(id: nat, message: string, kind: string)

  /** The notifications attached to the document, in document order; the
      ids whose removal timer is still pending; and the id the next
      notification receives. */
  datatype Board = Board(attached: seq<Notification>, pending: set<nat>, nextId: nat)

  /** A document without notifications and without timers. */
  const EmptyBoard := Board([], {}, 0)

  /** The slot discipline: at most one notification is attached; every
      attached one was created before `nextId` and still has its removal
      timer pending; and every pending timer belongs to a notification
      created before `nextId`. */
  predicate Inv(b: Board) {
    && |b.attached| <= 1
    && (forall k :: 0 <= k < |b.attached| ==> b.attached[k].id < b.nextId && b.attached[k].id in b.pending)
    && (forall id :: id in b.pending ==> id < b.nextId)
  }

  /** showNotification(message, kind): removes the first attached
      notification (querySelector(".notification")), appends a new one and
      schedules its removal. The new notification is always the last one
      attached and at most the first of the earlier ones has gone. On a
      board keeping the slot discipline the discipline is kept, the new
      notification is the only one attached, and its id belongs to no
      earlier notification and no pending timer. */
  function Show(b: Board, message: string, kind: string): (r: Board)
    ensures |r.attached| > 0 && r.attached[|r.attached| - 1] == Notification(b.nextId, message, kind)
    ensures r.attached[..|r.attached| - 1] == if |b.attached| == 0 then [] else b.attached[1..]
    ensures r.pending == b.pending + {b.nextId} && r.nextId > b.nextId
    ensures Inv(b) ==> Inv(r) && r.attached == [Notification(b.nextId, message, kind)]
    ensures Inv(b) ==> b.nextId !in b.pending
    ensures Inv(b) ==> forall k :: 0 <= k < |b.attached| ==> b.attached[k].id != b.nextId
  {
    var rest := if |b.attached| == 0 then [] else b.attached[1..];
    assert Inv(b) ==> rest == [];
    Board(rest + [Notification(b.nextId, message, kind)], b.pending + {b.nextId}, b.nextId + 1)
  }

  /** The removal timer of notification `id` fires: the timer is used up,
      and the notification is detached only if it is still attached (the
      parentNode guard); every other attached notification stays, in
      order. A timer that is not pending does nothing. */
  function Expire(b: Board, id: nat): (r: Board)
    ensures id !in b.pending ==> r == b
    ensures id in b.pending ==> r.pending == b.pending - {id} && r.nextId == b.nextId
    ensures id in b.pending ==>
              forall n :: n in r.attached <==> n in b.attached && n.id != id
    ensures |r.attached| <= |b.attached|
  {
    if id !in b.pending then b
    else Board(Detach(b.attached, id), b.pending - {id}, b.nextId)
  }

  /** The list without the notifications whose id is `id`. */
  function Detach(ns: seq<Notification>, id: nat): (r: seq<Notification>)
    ensures forall n :: n in r <==> n in ns && n.id != id
    ensures |r| <= |ns|
  {
    if |ns| == 0 then []
    else
      var rest := Detach(ns[1..], id);
      assert forall n :: n in ns <==> n == ns[0] || n in ns[1..];
      if ns[0].id == id then rest else [ns[0]] + rest
  }

  lemma EmptyBoardInv()
    ensures Inv(EmptyBoard)
  {
  }

  /** showNotification keeps the slot discipline, and afterwards exactly
      one notification is attached: the new one. */
  lemma ShowKeepsSlot(b: Board, message: string, kind: string)
    requires Inv(b)
    ensures Inv(Show(b, message, kind))
    ensures Show(b, message, kind).attached == [Notification(b.nextId, message, kind)]
  {
  }

  /** A removal timer keeps the slot discipline. */
  lemma ExpireKeepsSlot(b: Board, id: nat)
    requires Inv(b)
    ensures Inv(Expire(b, id))
  {
    var r := Expire(b, id);
    if id in b.pending && |r.attached| == 1 {
      assert r.attached[0] in r.attached;
    }
  }

  /** The guard of the delayed removal: a timer whose notification is no
      longer attached leaves the attached notification where it is. */
  lemma StaleTimerKeepsCurrent(b: Board, id: nat)
    requires Inv(b) && |b.attached| == 1 && b.attached[0].id != id
    ensures Expire(b, id).attached == b.attached
  {
    assert b.attached == [b.attached[0]];
  }

  /** A notification's own timer detaches it: after showNotification, the
      new notification's removal empties the slot. */
  lemma OwnTimerClears(b: Board, message: string, kind: string)
    requires Inv(b)
    ensures Expire(Show(b, message, kind), b.nextId).attached == []
  {
    ShowKeepsSlot(b, message, kind);
  }

  /** An earlier notification's timer, firing after a newer notification
      replaced it, does not detach the newer one. */
  lemma ReplacedTimerIsHarmless(b: Board, message: string, kind: string, earlier: nat)
    requires Inv(b) && earlier != b.nextId
    ensures Expire(Show(b, message, kind), earlier).attached == [Notification(b.nextId, message, kind)]
  {
    ShowKeepsSlot(b, message, kind);
    StaleTimerKeepsCurrent(Show(b, message, kind), earlier);
  }
}
