/** Connection identifiers: a 16-bit reuse counter over a 16-bit slot number (src/server/iocp_connmgr.c). */
module ConnUid {

  const MAX_CONNECTIONS := 4096
  const NO_SLOT := 0xFFFF

  /** Identifiers are uint32 values. */
  predicate IsUid(uid: int)
  {
    0 <= uid < 0x1_0000_0000
  }

  /** uid >> 16 */
  function Hi(uid: int): int
  {
    uid / 0x10000
  }

  /** uid & 0xFFFF */
  function Lo(uid: int): int
  {
    uid % 0x10000
  }

  /** ((uid + 0x00010000) & 0xFFFF0000) | slot, in uint32 arithmetic */
  function NextUid(uid: int, slot: int): (r: int)
    requires IsUid(uid) && 0 <= slot <= 0xFFFF
    ensures IsUid(r) && Lo(r) == slot && Hi(r) == (Hi(uid) + 1) % 0x10000
  {
    ((uid + 0x10000) % 0x1_0000_0000) / 0x10000 * 0x10000 + slot
  }

  /** (uid & 0xFFFF0000) | next */
  function FreedUid(uid: int, next: int): (r: int)
    requires IsUid(uid) && 0 <= next <= 0xFFFF
    ensures IsUid(r) && Lo(r) == next && Hi(r) == Hi(uid)
  {
    uid / 0x10000 * 0x10000 + next
  }

  /** The identifier handed out when `slot` is allocated for the `gen`-th time. */
  function UidOf(slot: int, gen: nat): (r: int)
    requires 0 <= slot <= 0xFFFF
    ensures IsUid(r) && Lo(r) == slot && Hi(r) == gen % 0x10000
  {
    gen % 0x10000 * 0x10000 + slot
  }

  /** The 16-bit counters of two allocations agree. */
  predicate SameTurn(g: int, h: int)
  {
    (g - h) % 0x10000 == 0
  }

  lemma SameTurnNearby(g: int, h: int)
    requires h <= g < h + 0x10000
    ensures SameTurn(g, h) <==> g == h
  {
  }

  /** Two allocations of one slot get the same identifier exactly when they are a multiple of 65536 apart. */
  lemma UidRepeats(slot: int, g: nat, h: nat)
    requires 0 <= slot <= 0xFFFF
    ensures UidOf(slot, g) == UidOf(slot, h) <==> SameTurn(g, h)
  {
    if UidOf(slot, g) == UidOf(slot, h) {
      assert g % 0x10000 == Hi(UidOf(slot, g)) == Hi(UidOf(slot, h)) == h % 0x10000;
    }
  }

  lemma UidDetermined(uid: int, slot: int, gen: nat)
    requires IsUid(uid) && 0 <= slot <= 0xFFFF && Lo(uid) == slot && Hi(uid) == gen % 0x10000
    ensures uid == UidOf(slot, gen)
  {
  }

  /** Identifiers of different slots never coincide. */
  lemma UidsOfSlotsDiffer(s: int, g: nat, t: int, h: nat)
    requires 0 <= s <= 0xFFFF && 0 <= t <= 0xFFFF && s != t
    ensures UidOf(s, g) != UidOf(t, h)
  {
    assert Lo(UidOf(s, g)) == s && Lo(UidOf(t, h)) == t;
  }

  /** An identifier matches an earlier one of its slot when the slot is in use and the counters agree. */
  lemma UidMatches(uid: int, inuse: bool, slot: int, gen: nat, g: nat)
    requires IsUid(uid) && 0 <= slot <= 0xFFFF && Hi(uid) == gen % 0x10000
    requires inuse <==> Lo(uid) == slot
    ensures uid == UidOf(slot, g) <==> inuse && SameTurn(gen, g)
  {
    if inuse {
      UidDetermined(uid, slot, gen);
      UidRepeats(slot, gen, g);
    } else {
      assert Lo(UidOf(slot, g)) == slot;
    }
  }
}
