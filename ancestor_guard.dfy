/** `verify_no_ancestor_player`: a player may animate only when no entity
    above it hosts another player, which keeps the entities two players
    write to apart. */
module AncestorGuard {
  import opened Common
  import opened Scene

  /** The entity `k` parent links above `e`, following links only through
      entities the query knows. */
  function AncestorAt(links: map<Entity, Link>, e: Entity, k: nat): Option<Entity>
    decreases k
  {
    if k == 0 then Some(e)
    else if e in links && links[e].parent.Some? then AncestorAt(links, links[e].parent.value, k - 1)
    else None
  }

  /** `a` is a known entity carrying an `AnimationPlayer`. */
  predicate HostsPlayer(links: map<Entity, Link>, a: Option<Entity>)
  {
    a.Some? && a.value in links && links[a.value].hasPlayer
  }

  /** Parent links never cycle: from every entity the walk upwards leaves
      the known entities within `|links| + 1` steps. */
  ghost predicate Acyclic(links: map<Entity, Link>)
  {
    forall e | e in links :: AncestorAt(links, e, |links| + 1).None?
  }

  /** The guard's answer: no entity on the walk upwards from the player's
      parent (the parent included) hosts a player. */
  ghost predicate NoPlayerAbove(links: map<Entity, Link>, playerParent: Option<Entity>)
  {
    playerParent.None? || forall k: nat :: !HostsPlayer(links, AncestorAt(links, playerParent.value, k))
  }

  /** Walking `i + j` steps is walking `i` steps and then `j` more. */
  lemma {:induction false} AncestorCompose(links: map<Entity, Link>, e: Entity, i: nat, j: nat)
    ensures AncestorAt(links, e, i + j) ==
      match AncestorAt(links, e, i)
      case None => None
      case Some(c) => AncestorAt(links, c, j)
    decreases i
  {
    if i > 0 && e in links && links[e].parent.Some? {
      AncestorCompose(links, links[e].parent.value, i - 1, j);
    }
  }

  /** Once the walk has stopped, it stays stopped. */
  lemma AncestorStops(links: map<Entity, Link>, e: Entity, i: nat, k: nat)
    requires AncestorAt(links, e, i).None? && i <= k
    ensures AncestorAt(links, e, k).None?
  {
    AncestorCompose(links, e, i, k - i);
  }

  /** `verify_no_ancestor_player`. */
  method VerifyNoAncestorPlayer(playerParent: Option<Entity>, links: map<Entity, Link>) returns (safe: bool)
    requires Acyclic(links)
    ensures safe == NoPlayerAbove(links, playerParent)
  {
    if playerParent.None? {
      return true;
    }
    var start := playerParent.value;
    var current := start;
    ghost var i: nat := 0;
    while true
      invariant AncestorAt(links, start, i) == Some(current)
      invariant i > 0 ==> start in links
      invariant forall k: nat | k < i :: !HostsPlayer(links, AncestorAt(links, start, k))
      decreases |links| + 1 - i
    {
      if current !in links {
        forall k: nat ensures !HostsPlayer(links, AncestorAt(links, start, k)) {
          if k > i {
            AncestorCompose(links, start, i, k - i);
          }
        }
        return true;
      }
      if links[current].hasPlayer {
        assert HostsPlayer(links, AncestorAt(links, start, i));
        return false;
      }
      if links[current].parent.None? {
        forall k: nat ensures !HostsPlayer(links, AncestorAt(links, start, k)) {
          if k > i {
            AncestorCompose(links, start, i, k - i);
          }
        }
        return true;
      }
      AncestorCompose(links, start, i, 1);
      assert i + 1 <= |links| by {
        if i + 1 > |links| {
          AncestorStops(links, start, |links| + 1, i + 1);
        }
      }
      current := links[current].parent.value;
      i := i + 1;
    }
  }

  /** A player whose walk upwards ends immediately passes the guard. */
  lemma RootPlayerIsSafe(links: map<Entity, Link>, player: Entity)
    requires player in links && links[player].parent.None?
    ensures NoPlayerAbove(links, links[player].parent)
  {
  }

  /** Two players that both pass the guard cannot both lie above the same
      entity unless they are the same player: the entities they animate are
      disjoint, which is what lets players run in parallel. */
  lemma {:induction false} GuardedPlayersAreDisjoint(
    links: map<Entity, Link>, target: Entity, p1: Entity, p2: Entity, i: nat, j: nat)
    requires AncestorAt(links, target, i) == Some(p1) && HostsPlayer(links, Some(p1))
    requires AncestorAt(links, target, j) == Some(p2) && HostsPlayer(links, Some(p2))
    requires NoPlayerAbove(links, links[p1].parent) && NoPlayerAbove(links, links[p2].parent)
    ensures p1 == p2
  {
    if i < j {
      AboveIsSeen(links, target, p1, p2, i, j);
    } else if j < i {
      AboveIsSeen(links, target, p2, p1, j, i);
    }
  }

  lemma AboveIsSeen(links: map<Entity, Link>, target: Entity, lower: Entity, upper: Entity, i: nat, j: nat)
    requires i < j
    requires AncestorAt(links, target, i) == Some(lower) && lower in links
    requires AncestorAt(links, target, j) == Some(upper) && HostsPlayer(links, Some(upper))
    ensures !NoPlayerAbove(links, links[lower].parent)
  {
    AncestorCompose(links, target, i, j - i);
    assert AncestorAt(links, lower, j - i) == Some(upper);
    assert links[lower].parent.Some?;
    assert AncestorAt(links, links[lower].parent.value, j - i - 1) == Some(upper);
  }
}
