/** Slots and per-user lists of server/servers/sockets.go. */
module Admission {
  import opened MachineInts
  import opened VpnNet
  import opened IpSwitch

  type User = string

  datatype Mode = KillOldest | PreventNew

  type Lists = map<User, seq<ConnId>>

  // --- slots ----------------------------------------------------------------------------

  /** The smallest free number from `from` on. */
  function FirstFree(used: set<nat>, from: nat): (slot: nat)
    ensures slot >= from && slot !in used
    ensures forall i | from <= i < slot :: i in used
    decreases |set u | u in used && u >= from|
  {
    if from !in used then from
    else
      assert (set u | u in used && u >= from) == (set u | u in used && u >= from + 1) + {from};
      FirstFree(used, from + 1)
  }

  lemma FirstFreeBeyond(used: set<nat>, from: nat)
    requires from in used
    ensures FirstFree(used, from) == FirstFree(used, from + 1) > from
  {
  }

  /** What the slot loop finds. The limit is not looked at before slot 1 is found taken. */
  function Allocate(used: set<nat>, maxSlot: nat): Option<nat> {
    var slot := FirstFree(used, 1);
    if slot == 1 || slot <= maxSlot then Some(slot) else None
  }

  lemma {:induction false} AllUpToAreCounted(used: set<nat>, n: nat)
    requires forall i | 1 <= i <= n :: i in used
    ensures n <= |used|
  {
    if n > 0 {
      AllUpToAreCounted(used - {n}, n - 1);
    }
  }

  /** The slot handed out is the smallest free one, at most one more than there are holders;
      none is handed out exactly if slots 1 to the highest (at least 1) are all taken. */
  lemma AllocateIsSmallestFree(used: set<nat>, maxSlot: nat)
    ensures Allocate(used, maxSlot).Some? ==>
      var slot := Allocate(used, maxSlot).value;
      && 1 <= slot <= |used| + 1 && slot !in used
      && forall i | 1 <= i < slot :: i in used
    ensures Allocate(used, maxSlot).None? <==>
      1 in used && forall i | 1 <= i <= maxSlot :: i in used
  {
    var slot := FirstFree(used, 1);
    AllUpToAreCounted(used, slot - 1);
  }

  // --- per-user lists -------------------------------------------------------------------

  function ListOf(lists: Lists, user: User): seq<ConnId> {
    if user in lists then lists[user] else []
  }

  datatype Admitted = Admitted(lists: Lists, killed: Option<ConnId>, refused: bool)

  /** A user's new connection: anonymous users and limits of 0 or less are not tracked; at the
      limit either the oldest goes or the new one is refused. */
  function Admit(lists: Lists, user: User, c: ConnId, limit: int, mode: Mode): Admitted {
    if user == "" || limit <= 0 then Admitted(lists, None, false)
    else
      var list := ListOf(lists, user);
      if |list| < limit then Admitted(lists[user := list + [c]], None, false)
      else if mode == KillOldest then Admitted(lists[user := list[1..] + [c]], Some(list[0]), false)
      else Admitted(lists, None, true)
  }

  function Minus(list: seq<ConnId>, c: ConnId): seq<ConnId> {
    if list == [] then []
    else Minus(list[..|list| - 1], c) + if list[|list| - 1] == c then [] else [list[|list| - 1]]
  }

  function Departed(lists: Lists, user: User, c: ConnId): Lists {
    if user == "" || user !in lists then lists
    else if Minus(lists[user], c) == [] then lists - {user}
    else lists[user := Minus(lists[user], c)]
  }

  class Server {
    const net: Net
    var usedSlots: set<nat>
    var sockets: set<ConnId>
    var authenticatedSockets: Lists

    constructor (net: Net)
      ensures this.net == net && usedSlots == {} && sockets == {} && authenticatedSockets == map[]
    {
      this.net := net;
      usedSlots, sockets, authenticatedSockets := {}, {}, map[];
    }

    method AllocateSlot() returns (slot: Option<nat>)
      modifies `usedSlots
      ensures slot == Allocate(old(usedSlots), net.MaxSlot())
      ensures usedSlots == old(usedSlots) + if slot.Some? then {slot.value} else {}
    {
      var next := 1;
      var maxSlot := net.MaxSlot();
      while next in usedSlots
        invariant usedSlots == old(usedSlots)
        invariant next >= 1 && (next == 1 || next <= maxSlot)
        invariant FirstFree(usedSlots, 1) == FirstFree(usedSlots, next)
        decreases FirstFree(usedSlots, 1) - next
      {
        FirstFreeBeyond(usedSlots, next);
        next := next + 1;
        if next > maxSlot {
          return None;
        }
      }
      usedSlots := usedSlots + {next};
      slot := Some(next);
    }

    method ReleaseSlot(slot: nat)
      modifies `usedSlots
      ensures usedSlots == old(usedSlots) - {slot}
    {
      usedSlots := usedSlots - {slot};
    }

    /** `killed` is to be closed with an error; a refused connection is not recorded. */
    method AdmitSocket(user: User, c: ConnId, limit: int, mode: Mode) returns (killed: Option<ConnId>, refused: bool)
      modifies `sockets, `authenticatedSockets
      ensures Admitted(authenticatedSockets, killed, refused) == Admit(old(authenticatedSockets), user, c, limit, mode)
      ensures sockets == old(sockets) + if refused then {} else {c}
    {
      killed, refused := None, false;
      if user != "" && limit > 0 {
        var userSocks := if user in authenticatedSockets then authenticatedSockets[user] else [];
        if |userSocks| >= limit {
          match mode {
            case KillOldest =>
              killed := Some(userSocks[0]);
              userSocks := userSocks[1..];
            case PreventNew =>
              refused := true;
              return;
          }
        }
        userSocks := userSocks + [c];
        authenticatedSockets := authenticatedSockets[user := userSocks];
      }
      sockets := sockets + {c};
    }

    /** The deferred clean-up of a connection that was admitted. */
    method RemoveSocket(user: User, c: ConnId)
      modifies `sockets, `authenticatedSockets
      ensures sockets == old(sockets) - {c}
      ensures authenticatedSockets == Departed(old(authenticatedSockets), user, c)
    {
      sockets := sockets - {c};
      if user != "" && user in authenticatedSockets {
        var userSocks := authenticatedSockets[user];
        var newSocks := [];
        for i := 0 to |userSocks|
          invariant newSocks == Minus(userSocks[..i], c)
        {
          assert userSocks[..i + 1][..i] == userSocks[..i];
          if userSocks[i] != c {
            newSocks := newSocks + [userSocks[i]];
          }
        }
        assert userSocks[..|userSocks|] == userSocks;
        if |newSocks| == 0 {
          authenticatedSockets := authenticatedSockets - {user};
        } else {
          authenticatedSockets := authenticatedSockets[user := newSocks];
        }
      }
    }
  }
}
