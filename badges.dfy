/**
 * The badge unlock evaluator of the logging transaction (`checkBadgeUnlocks`,
 * app/api/streaks/route.ts:89-123) and the filter the client demo uses.
 */
module BadgeUnlock {
  import opened Types
  import opened Seqs

  /** A badge a streak of `newStreak` earns: only streak-type criteria are evaluated. */
  predicate Qualifies(b: Badge, newStreak: int) {
    b.unlockCriteria.kind == StreakCriteria && newStreak >= b.unlockCriteria.value
  }

  /**
   * The badges the catalog scan reports, in catalog order. Each badge's id is checked against
   * the held list as it grows during the scan, exactly as the loop pushes onto it.
   */
  function Unlocked(catalog: seq<Badge>, held: seq<BadgeId>, newStreak: int): seq<Badge>
  {
    if catalog == [] then []
    else if catalog[0].id !in held && Qualifies(catalog[0], newStreak) then
      [catalog[0]] + Unlocked(catalog[1..], held + [catalog[0].id], newStreak)
    else
      Unlocked(catalog[1..], held, newStreak)
  }

  /** The catalog badges not in `held` that qualify, `held` fixed during the scan. */
  function Eligible(catalog: seq<Badge>, held: seq<BadgeId>, newStreak: int): seq<Badge>
  {
    if catalog == [] then []
    else
      var head := if catalog[0].id !in held && Qualifies(catalog[0], newStreak) then [catalog[0]] else [];
      head + Eligible(catalog[1..], held, newStreak)
  }

  /** The scan loop: returns the new achievedBadges list and the newly unlocked badges. */
  method UnlockScan(catalog: seq<Badge>, held: seq<BadgeId>, newStreak: int)
    returns (achieved: seq<BadgeId>, newBadges: seq<Badge>)
    ensures newBadges == Unlocked(catalog, held, newStreak)
    ensures achieved == held + Ids(newBadges)
  {
    achieved := held;
    newBadges := [];
    for i := 0 to |catalog|
      invariant achieved == held + Ids(newBadges)
      invariant newBadges + Unlocked(catalog[i..], achieved, newStreak) == Unlocked(catalog, held, newStreak)
    {
      var badge := catalog[i];
      assert catalog[i..][1..] == catalog[i + 1..];
      if badge.id in achieved {
        continue;
      }
      if Qualifies(badge, newStreak) {
        assert Ids(newBadges + [badge]) == Ids(newBadges) + [badge.id];
        achieved := achieved + [badge.id];
        newBadges := newBadges + [badge];
      }
    }
    assert catalog[|catalog|..] == [];
  }

  /** Every reported badge comes from the catalog, was not held, and is a streak badge the streak reaches. */
  lemma {:induction false} UnlockedSound(catalog: seq<Badge>, held: seq<BadgeId>, newStreak: int)
    ensures forall b :: b in Unlocked(catalog, held, newStreak) ==>
      b in catalog && b.id !in held && Qualifies(b, newStreak)
  {
    if catalog != [] {
      var c := catalog[0];
      if c.id !in held && Qualifies(c, newStreak) {
        UnlockedSound(catalog[1..], held + [c.id], newStreak);
      } else {
        UnlockedSound(catalog[1..], held, newStreak);
      }
    }
  }

  /** After the scan every qualifying catalog badge is held. */
  lemma {:induction false} UnlockedComplete(catalog: seq<Badge>, held: seq<BadgeId>, newStreak: int)
    ensures forall b :: b in catalog && Qualifies(b, newStreak) ==>
      b.id in held + Ids(Unlocked(catalog, held, newStreak))
  {
    if catalog != [] {
      var c := catalog[0];
      if c.id !in held && Qualifies(c, newStreak) {
        var rest := Unlocked(catalog[1..], held + [c.id], newStreak);
        UnlockedComplete(catalog[1..], held + [c.id], newStreak);
        assert Ids([c] + rest) == [c.id] + Ids(rest);
        assert held + Ids([c] + rest) == (held + [c.id]) + Ids(rest);
      } else {
        UnlockedComplete(catalog[1..], held, newStreak);
      }
    }
  }

  /** The achieved list stays free of duplicates. */
  lemma {:induction false} UnlockedNoDup(catalog: seq<Badge>, held: seq<BadgeId>, newStreak: int)
    requires NoDup(held)
    ensures NoDup(held + Ids(Unlocked(catalog, held, newStreak)))
  {
    if catalog != [] {
      var c := catalog[0];
      if c.id !in held && Qualifies(c, newStreak) {
        var rest := Unlocked(catalog[1..], held + [c.id], newStreak);
        UnlockedNoDup(catalog[1..], held + [c.id], newStreak);
        assert Ids([c] + rest) == [c.id] + Ids(rest);
        assert held + Ids([c] + rest) == (held + [c.id]) + Ids(rest);
      } else {
        UnlockedNoDup(catalog[1..], held, newStreak);
      }
    }
  }

  /** When every qualifying badge is already held, the scan reports nothing. */
  lemma {:induction false} NothingLeftToUnlock(catalog: seq<Badge>, held: seq<BadgeId>, newStreak: int)
    requires forall b :: b in catalog && Qualifies(b, newStreak) ==> b.id in held
    ensures Unlocked(catalog, held, newStreak) == []
  {
    if catalog != [] {
      NothingLeftToUnlock(catalog[1..], held, newStreak);
    }
  }

  /** Running the scan again with the same streak on its own result unlocks nothing. */
  lemma UnlockIdempotent(catalog: seq<Badge>, held: seq<BadgeId>, newStreak: int)
    ensures Unlocked(catalog, held + Ids(Unlocked(catalog, held, newStreak)), newStreak) == []
  {
    UnlockedComplete(catalog, held, newStreak);
    NothingLeftToUnlock(catalog, held + Ids(Unlocked(catalog, held, newStreak)), newStreak);
  }

  predicate DistinctIds(catalog: seq<Badge>) {
    NoDup(Ids(catalog))
  }

  /** Ids that do not occur in the catalog make no difference to the filter. */
  lemma {:induction false} EligibleIgnoresForeignIds(catalog: seq<Badge>, held: seq<BadgeId>, extra: BadgeId, newStreak: int)
    requires extra !in Ids(catalog)
    ensures Eligible(catalog, held + [extra], newStreak) == Eligible(catalog, held, newStreak)
  {
    if catalog != [] {
      assert Ids(catalog[1..]) == Ids(catalog)[1..];
      EligibleIgnoresForeignIds(catalog[1..], held, extra, newStreak);
    }
  }

  /**
   * With distinct catalog ids (the badge table is keyed by id), the scan reports exactly the
   * catalog badges that are not already held and qualify, in catalog order.
   */
  lemma {:induction false} UnlockedIsEligible(catalog: seq<Badge>, held: seq<BadgeId>, newStreak: int)
    requires DistinctIds(catalog)
    ensures Unlocked(catalog, held, newStreak) == Eligible(catalog, held, newStreak)
  {
    if catalog != [] {
      var c := catalog[0];
      assert Ids(catalog[1..]) == Ids(catalog)[1..];
      assert DistinctIds(catalog[1..]);
      if c.id !in held && Qualifies(c, newStreak) {
        UnlockedIsEligible(catalog[1..], held + [c.id], newStreak);
        assert c.id !in Ids(catalog[1..]) by {
          forall j | 0 <= j < |Ids(catalog[1..])| ensures Ids(catalog[1..])[j] != c.id {
            assert Ids(catalog)[0] == c.id && Ids(catalog)[j + 1] == Ids(catalog[1..])[j];
          }
        }
        EligibleIgnoresForeignIds(catalog[1..], held, c.id, newStreak);
      } else {
        UnlockedIsEligible(catalog[1..], held, newStreak);
      }
    }
  }

  /** The badges the client demo adds: each id is in the catalog, not held, and qualifies. */
  lemma {:induction false} EligibleSound(catalog: seq<Badge>, held: seq<BadgeId>, newStreak: int)
    ensures forall b :: b in Eligible(catalog, held, newStreak) <==>
      b in catalog && b.id !in held && Qualifies(b, newStreak)
  {
    if catalog != [] {
      EligibleSound(catalog[1..], held, newStreak);
      assert catalog == [catalog[0]] + catalog[1..];
    }
  }
}
