/**
 * The sprite groups of a frame as sequences of values, and the collision
 * passes of `Game.handle_collisions` (main.py) stated on them: which
 * bullets and chests a pass removes and how much damage it deals.
 */
module Collisions {
  import opened Geometry
  import opened Combat

  /** A bullet in flight: where it is and the damage it deals. */
  datatype Bullet = Bullet(rect: Rect, damage: nat)

  /** A chest on the map and the item it holds. */
  datatype ChestSprite = ChestSprite(rect: Rect, item: Item)

  /** `r` overlaps some obstacle. */
  predicate HitsAny(obstacles: seq<Rect>, r: Rect) {
    exists i :: 0 <= i < |obstacles| && Colliderect(r, obstacles[i])
  }

  /** The bullets, in order, that touch no obstacle. */
  function Clear(bs: seq<Bullet>, obstacles: seq<Rect>): seq<Bullet> {
    if bs == [] then []
    else
      var last := bs[|bs| - 1];
      Clear(bs[..|bs| - 1], obstacles) + if HitsAny(obstacles, last.rect) then [] else [last]
  }

  /** A bullet survives the obstacles iff it touches none of them. */
  lemma {:induction false} ClearMembers(bs: seq<Bullet>, obstacles: seq<Rect>, b: Bullet)
    ensures b in Clear(bs, obstacles) <==> b in bs && !HitsAny(obstacles, b.rect)
  {
    if bs != [] {
      ClearMembers(bs[..|bs| - 1], obstacles, b);
      assert bs == bs[..|bs| - 1] + [bs[|bs| - 1]];
    }
  }

  /** The bullets, in order, that touch `r`. */
  function Hitting(bs: seq<Bullet>, r: Rect): seq<Bullet> {
    if bs == [] then []
    else
      var last := bs[|bs| - 1];
      Hitting(bs[..|bs| - 1], r) + if Colliderect(r, last.rect) then [last] else []
  }

  /** A bullet hits `r` iff it was fired and touches `r`. */
  lemma {:induction false} HittingMembers(bs: seq<Bullet>, r: Rect, b: Bullet)
    ensures b in Hitting(bs, r) <==> b in bs && Colliderect(r, b.rect)
  {
    if bs != [] {
      HittingMembers(bs[..|bs| - 1], r, b);
      assert bs == bs[..|bs| - 1] + [bs[|bs| - 1]];
    }
  }

  /** The bullets, in order, that miss `r`. */
  function Missing(bs: seq<Bullet>, r: Rect): seq<Bullet> {
    if bs == [] then []
    else
      var last := bs[|bs| - 1];
      Missing(bs[..|bs| - 1], r) + if Colliderect(r, last.rect) then [] else [last]
  }

  /** A bullet misses `r` iff it was fired and does not touch `r`. */
  lemma {:induction false} MissingMembers(bs: seq<Bullet>, r: Rect, b: Bullet)
    ensures b in Missing(bs, r) <==> b in bs && !Colliderect(r, b.rect)
  {
    if bs != [] {
      MissingMembers(bs[..|bs| - 1], r, b);
      assert bs == bs[..|bs| - 1] + [bs[|bs| - 1]];
    }
  }

  /** The total damage of some bullets. */
  function Damage(bs: seq<Bullet>): nat {
    if bs == [] then 0 else Damage(bs[..|bs| - 1]) + bs[|bs| - 1].damage
  }

  lemma DamageAppend(bs: seq<Bullet>, b: Bullet)
    ensures Damage(bs + [b]) == Damage(bs) + b.damage
  {
    assert (bs + [b])[..|bs|] == bs;
  }

  /** Splitting bullets into those that touch a rectangle and those that miss it keeps the damage. */
  lemma {:induction false} DamageSplit(bs: seq<Bullet>, r: Rect)
    ensures Damage(Hitting(bs, r)) + Damage(Missing(bs, r)) == Damage(bs)
  {
    if bs != [] {
      var init, last := bs[..|bs| - 1], bs[|bs| - 1];
      DamageSplit(init, r);
      if Colliderect(r, last.rect) {
        assert Hitting(bs, r) == Hitting(init, r) + [last];
        assert Missing(bs, r) == Missing(init, r);
        DamageAppend(Hitting(init, r), last);
      } else {
        assert Hitting(bs, r) == Hitting(init, r);
        assert Missing(bs, r) == Missing(init, r) + [last];
        DamageAppend(Missing(init, r), last);
      }
    }
  }

  /**
   * The player bullets left after the enemies `rs[..i]` have each taken the
   * ones that touch them, in group order (`groupcollide` kills a bullet as
   * soon as one enemy has it).
   */
  function Remaining(rs: seq<Rect>, bs: seq<Bullet>, i: nat): seq<Bullet>
    requires i <= |rs|
  {
    if i == 0 then bs else Missing(Remaining(rs, bs, i - 1), rs[i - 1])
  }

  /** The player bullets that enemy `i` takes. */
  function Claimed(rs: seq<Rect>, bs: seq<Bullet>, i: nat): seq<Bullet>
    requires i < |rs|
  {
    Hitting(Remaining(rs, bs, i), rs[i])
  }

  /** The damage each enemy takes, in group order: that of the bullets it claims. */
  function DamageTaken(rs: seq<Rect>, bs: seq<Bullet>): seq<nat> {
    seq(|rs|, k requires 0 <= k < |rs| => Damage(Claimed(rs, bs, k)))
  }

  /** The damage dealt to the enemies `rs[..i]`. */
  function Dealt(rs: seq<Rect>, bs: seq<Bullet>, i: nat): nat
    requires i <= |rs|
  {
    if i == 0 then 0 else Dealt(rs, bs, i - 1) + Damage(Claimed(rs, bs, i - 1))
  }

  /** A bullet is left iff it touches none of the enemies passed. */
  lemma {:induction false} RemainingMembers(rs: seq<Rect>, bs: seq<Bullet>, i: nat, b: Bullet)
    requires i <= |rs|
    ensures b in Remaining(rs, bs, i) <==> b in bs && forall j :: 0 <= j < i ==> !Colliderect(rs[j], b.rect)
  {
    if i > 0 {
      RemainingMembers(rs, bs, i - 1, b);
      MissingMembers(Remaining(rs, bs, i - 1), rs[i - 1], b);
    }
  }

  /**
   * Each player bullet damages at most one enemy: enemy `i` takes exactly the
   * bullets that touch it and touch no enemy before it.
   */
  lemma ClaimedMembers(rs: seq<Rect>, bs: seq<Bullet>, i: nat, b: Bullet)
    requires i < |rs|
    ensures b in Claimed(rs, bs, i) <==> b in bs && Colliderect(rs[i], b.rect) && forall j :: 0 <= j < i ==> !Colliderect(rs[j], b.rect)
  {
    RemainingMembers(rs, bs, i, b);
    HittingMembers(Remaining(rs, bs, i), rs[i], b);
  }

  /** Damage is conserved: what the enemies took plus what is left is what was fired. */
  lemma {:induction false} DamageConserved(rs: seq<Rect>, bs: seq<Bullet>, i: nat)
    requires i <= |rs|
    ensures Dealt(rs, bs, i) + Damage(Remaining(rs, bs, i)) == Damage(bs)
  {
    if i > 0 {
      DamageConserved(rs, bs, i - 1);
      var before := Remaining(rs, bs, i - 1);
      DamageSplit(before, rs[i - 1]);
      assert Remaining(rs, bs, i) == Missing(before, rs[i - 1]);
      assert Claimed(rs, bs, i - 1) == Hitting(before, rs[i - 1]);
      assert Dealt(rs, bs, i) == Dealt(rs, bs, i - 1) + Damage(Hitting(before, rs[i - 1]));
    }
  }

  /** The chests, in order, that touch `r`. */
  function Touching(cs: seq<ChestSprite>, r: Rect): seq<ChestSprite> {
    if cs == [] then []
    else
      var last := cs[|cs| - 1];
      Touching(cs[..|cs| - 1], r) + if Colliderect(r, last.rect) then [last] else []
  }

  /** A chest is opened iff it was on the map and touches `r`. */
  lemma {:induction false} TouchingMembers(cs: seq<ChestSprite>, r: Rect, c: ChestSprite)
    ensures c in Touching(cs, r) <==> c in cs && Colliderect(r, c.rect)
  {
    if cs != [] {
      TouchingMembers(cs[..|cs| - 1], r, c);
      assert cs == cs[..|cs| - 1] + [cs[|cs| - 1]];
    }
  }

  /** The chests, in order, that do not touch `r`. */
  function Untouched(cs: seq<ChestSprite>, r: Rect): seq<ChestSprite> {
    if cs == [] then []
    else
      var last := cs[|cs| - 1];
      Untouched(cs[..|cs| - 1], r) + if Colliderect(r, last.rect) then [] else [last]
  }

  /** A chest stays iff it was on the map and does not touch `r`. */
  lemma {:induction false} UntouchedMembers(cs: seq<ChestSprite>, r: Rect, c: ChestSprite)
    ensures c in Untouched(cs, r) <==> c in cs && !Colliderect(r, c.rect)
  {
    if cs != [] {
      UntouchedMembers(cs[..|cs| - 1], r, c);
      assert cs == cs[..|cs| - 1] + [cs[|cs| - 1]];
    }
  }

  function Items(cs: seq<ChestSprite>): (items: seq<Item>)
    ensures |items| == |cs| && forall k :: 0 <= k < |cs| ==> items[k] == cs[k].item
  {
    seq(|cs|, k requires 0 <= k < |cs| => cs[k].item)
  }

  /** Every rectangle moves by minus the offset. */
  function ShiftRects(rs: seq<Rect>, off: Point): (moved: seq<Rect>)
    ensures |moved| == |rs| && forall k :: 0 <= k < |rs| ==> moved[k] == Shifted(rs[k], off)
  {
    seq(|rs|, k requires 0 <= k < |rs| => Shifted(rs[k], off))
  }

  function ShiftBullets(bs: seq<Bullet>, off: Point): (moved: seq<Bullet>)
    ensures |moved| == |bs| && forall k :: 0 <= k < |bs| ==> moved[k] == bs[k].(rect := Shifted(bs[k].rect, off))
  {
    seq(|bs|, k requires 0 <= k < |bs| => bs[k].(rect := Shifted(bs[k].rect, off)))
  }

  /**
   * The same move for the chests: a chest sprite is a record of its own,
   * with no bullet fields, so it needs its own shift.
   */
  function ShiftChests(cs: seq<ChestSprite>, off: Point): (moved: seq<ChestSprite>)
    ensures |moved| == |cs| && forall k :: 0 <= k < |cs| ==> moved[k] == cs[k].(rect := Shifted(cs[k].rect, off))
  {
    seq(|cs|, k requires 0 <= k < |cs| => cs[k].(rect := Shifted(cs[k].rect, off)))
  }
}
