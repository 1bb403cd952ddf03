/** Lists of at most sixteen different entries, as the compiled filters keep them. */
module Rooms {
  import opened Spec
  import Fold

  ghost predicate More<T>(a: seq<T>, b: seq<T>) {
    forall t :: t in a ==> t in b
  }

  /** Nothing twice, and no more than sixteen. */
  ghost predicate Tidy<T>(ts: seq<T>) {
    |ts| <= 16 && forall i, j :: 0 <= i < j < |ts| ==> ts[i] != ts[j]
  }

  /** Sixteen places are enough for the wanted entries beside those entered. */
  ghost predicate Room<T(!new)>(ts: seq<T>, want: iset<T>) {
    exists room: seq<T> :: |room| <= 16 && More(ts, room) && forall t :: t in want ==> t in room
  }

  /** Some of the wanted entries have been entered. */
  ghost predicate Filling<T(!new)>(ts0: seq<T>, want: iset<T>, cur: seq<T>) {
    Tidy(cur) && More(ts0, cur) && forall t :: t in cur ==> t in ts0 || t in want
  }

  lemma {:induction false} FillStep<T(!new)>(ts0: seq<T>, want: iset<T>, cur: seq<T>, part: iset<T>, next: seq<T>)
    requires Filling(ts0, want, cur) && Filling(cur, part, next) && part <= want
    ensures Filling(ts0, want, next)
  {
  }

  lemma {:induction false} FillFails<T(!new)>(ts0: seq<T>, want: iset<T>, cur: seq<T>, part: iset<T>)
    requires Filling(ts0, want, cur) && part <= want && !Room(cur, part)
    ensures !Room(ts0, want)
  {
    if Room(ts0, want) {
      var room: seq<T> :| |room| <= 16 && More(ts0, room) && forall t :: t in want ==> t in room;
      assert More(cur, room);
    }
  }

  lemma {:induction false} Filled<T(!new)>(ts0: seq<T>, want: iset<T>, cur: seq<T>)
    requires Filling(ts0, want, cur) && forall t :: t in want ==> t in cur
    ensures Room(ts0, want)
  {
  }

  lemma {:induction false} Filler<T(!new)>(ts: seq<T>, want: iset<T>)
    requires Tidy(ts)
    ensures Filling(ts, want, ts)
  {
  }

  /** Entering one entry fails only for lack of room. */
  lemma {:induction false} EnterOne<T(!new)>(ts: seq<T>, t: T, want: iset<T>, more: Option<seq<T>>)
    requires Tidy(ts) && forall u :: u in want <==> u == t
    requires more == if t in ts then Some(ts) else if |ts| == 16 then None else Some(ts + [t])
    ensures more.Some? <==> Room(ts, want)
    ensures more.Some? ==> Filling(ts, want, more.value) && t in more.value
  {
    if more.Some? {
      Filled(ts, want, more.value);
    } else if Room(ts, want) {
      var room: seq<T> :| |room| <= 16 && More(ts, room) && forall u :: u in want ==> u in room;
      Fold.Pigeons(ts + [t], room);
      assert false;
    }
  }

  /** What is contained in a list with room fits beside anything else contained in it. */
  lemma {:induction false} RoomWithin<T(!new)>(ts: seq<T>, want: iset<T>, room: seq<T>)
    requires |room| <= 16 && More(ts, room) && forall t :: t in want ==> t in room
    ensures Room(ts, want)
  {
  }
}
