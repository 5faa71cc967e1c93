/** A driver that takes a burst piece by piece. */
module Driver {

  /** How many of `cnt` packets a driver takes that accepts up to these many in its turns. */
  function Taken(cnt: nat, driver: seq<nat>): (t: nat)
    ensures t <= cnt
  {
    if cnt == 0 || driver == [] then 0
    else
      var ret := if driver[0] < cnt then driver[0] else cnt;
      ret + Taken(cnt - ret, driver[1..])
  }

  /** A driver that takes something every time empties a burst in as many turns as it has packets. */
  lemma {:induction false} PersistentDriver(cnt: nat, driver: seq<nat>)
    requires |driver| >= cnt && forall t | 0 <= t < |driver| :: driver[t] > 0
    ensures Taken(cnt, driver) == cnt
    decreases driver
  {
    if cnt > 0 {
      PersistentDriver(cnt - (if driver[0] < cnt then driver[0] else cnt), driver[1..]);
    }
  }

  function Sum(driver: seq<nat>): nat {
    if driver == [] then 0 else driver[0] + Sum(driver[1..])
  }

  /** It takes all that it offers to take, but no more than there is. */
  lemma {:induction false} TakenExactly(cnt: nat, driver: seq<nat>)
    ensures Taken(cnt, driver) == if Sum(driver) < cnt then Sum(driver) else cnt
    decreases driver
  {
    if cnt > 0 && driver != [] {
      TakenExactly(cnt - (if driver[0] < cnt then driver[0] else cnt), driver[1..]);
    }
  }
}
