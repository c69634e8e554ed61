/**
 * Weapons, the player and the enemies (the `Weapon` family, `Player` and the
 * `Enemy` family of gameobjects.py). Times are whole milliseconds and the
 * current time is a parameter; a reload, a thread that sleeps in the source,
 * is two atomic steps: `Reload` starts it and `FinishReload` completes it.
 */
module Combat {
  import opened Settings
  import opened Geometry

  datatype WeaponKind = Pistol | AssaultRifle | Shotgun | Sniper

  function MagazineSize(k: WeaponKind): nat {
    match k
    case Pistol => 15
    case AssaultRifle => 30
    case Shotgun => 12
    case Sniper => 1
  }

  function BulletDamage(k: WeaponKind): nat {
    match k
    case Pistol => 15
    case AssaultRifle => 20
    case Shotgun => 17
    case Sniper => 25
  }

  /** Least time between two trigger pulls that fire, in milliseconds. */
  function FireRate(k: WeaponKind): nat {
    match k
    case Pistol => 200
    case AssaultRifle => 75
    case Shotgun => 750
    case Sniper => 2500
  }

  /** Length of a reload, in milliseconds (the time the reload thread sleeps). */
  function ReloadTime(k: WeaponKind): nat {
    match k
    case Pistol => 1000
    case AssaultRifle => 1750
    case Shotgun => 1200
    case Sniper => 2500
  }

  /** A shotgun fires up to this many pellets per trigger pull. */
  const PELLETS: int := 3
  /** Angle between neighbouring pellets, in degrees. */
  const SPREAD_DEGREES: int := 10

  /** A bullet as it leaves the weapon: its damage and its angle offset in spread steps. */
  datatype Shot = Shot(damage: nat, spread: int)

  /**
   * How many bullets one trigger pull fires: none from an empty magazine or
   * before the fire rate has elapsed, otherwise one, or for a shotgun as
   * many pellets as the magazine still holds, up to three.
   */
  function ShotsFired(k: WeaponKind, ammo: nat, lastFired: int, fireRate: nat, now: int): (n: nat)
    ensures n <= ammo && n <= PELLETS
    ensures n == 0 <==> ammo == 0 || now - lastFired < fireRate
    ensures k != Shotgun ==> n <= 1
    ensures k == Shotgun && n > 0 ==> n == Min(PELLETS, ammo)
  {
    if ammo == 0 || now - lastFired < fireRate then 0
    else if k == Shotgun then Min(PELLETS, ammo)
    else 1
  }

  /** The bullets of one trigger pull that fires `n` of them. */
  function Volley(k: WeaponKind, damage: nat, n: nat): (v: seq<Shot>)
    ensures |v| == n && forall i :: 0 <= i < n ==> v[i].damage == damage
  {
    if k == Shotgun then seq(n, i => Shot(damage, i - 1)) else seq(n, i => Shot(damage, 0))
  }

  /** The item a chest holds. */
  datatype Item = WeaponItem(name: WeaponKind) | HealthItem(points: nat) | AmmoItem(rounds: nat)

  class Weapon {
    const kind: WeaponKind
    const magazineSize: nat
    const bulletDamage: nat
    const fireRate: nat
    /** The player holding the weapon; `null` for an enemy's weapon, whose reserve is unbounded. */
    var user: Player?
    var ammo: nat
    var reloading: bool
    var lastFired: int
    /** Every bullet fired so far, oldest first. */
    var fired: seq<Shot>

    ghost predicate Valid()
      reads this
    {
      0 < magazineSize && ammo <= magazineSize
    }

    /** A weapon of `kind` with a full magazine, firing `damage` bullets at most every `rate` ms. */
    constructor(kind: WeaponKind, user: Player?, damage: nat, rate: nat)
      ensures Valid() && this.kind == kind && this.user == user
      ensures magazineSize == MagazineSize(kind) && bulletDamage == damage && fireRate == rate
      ensures ammo == magazineSize && !reloading && lastFired == 0 && fired == []
    {
      this.kind := kind;
      this.user := user;
      magazineSize := MagazineSize(kind);
      bulletDamage := damage;
      fireRate := rate;
      ammo := MagazineSize(kind);
      reloading := false;
      lastFired := 0;
      fired := [];
    }

    /** Whether the holder has no reserve rounds left (never for an enemy). */
    predicate ReserveEmpty()
      reads this, user
    {
      user != null && user.ammo == 0
    }

    /**
     * `fire`, and the shotgun's override: nothing from an empty magazine or
     * within the fire rate; otherwise the shots of `ShotsFired` leave the
     * magazine, one round each, and the time is recorded.
     */
    method Fire(now: int)
      requires Valid()
      modifies this
      ensures Valid() && user == old(user) && reloading == old(reloading)
      ensures var n := ShotsFired(kind, old(ammo), old(lastFired), fireRate, now);
        && ammo == old(ammo) - n
        && fired == old(fired) + Volley(kind, bulletDamage, n)
        && lastFired == if n == 0 then old(lastFired) else now
    {
      if ammo == 0 {
        return;
      }
      if now - lastFired >= fireRate {
        if kind == Shotgun {
          var i := -1;
          while i < PELLETS - 1
            invariant -1 <= i <= PELLETS - 1
            invariant ammo + (i + 1) == old(ammo)
            invariant fired == old(fired) + Volley(kind, bulletDamage, i + 1)
            invariant lastFired == if i == -1 then old(lastFired) else now
            invariant user == old(user) && reloading == old(reloading)
          {
            if ammo == 0 {
              break;
            }
            fired := fired + [Shot(bulletDamage, i)];
            ammo := ammo - 1;
            lastFired := now;
            i := i + 1;
          }
        } else {
          fired := fired + [Shot(bulletDamage, 0)];
          ammo := ammo - 1;
          lastFired := now;
        }
      }
    }

    /**
     * `reload`: starts a reload unless the magazine is full, the holder has
     * no reserve, or a reload is already under way.
     */
    method Reload()
      requires Valid()
      modifies this`reloading
      ensures reloading == (old(reloading) || (ammo < magazineSize && !ReserveEmpty()))
    {
      if ammo == magazineSize || ReserveEmpty() || reloading {
        return;
      }
      reloading := true;
    }

    /**
     * The end of `_reload_method`: the magazine takes what it lacks from the
     * reserve, as much as the reserve holds; rounds are neither made nor
     * lost. An enemy's unbounded reserve always fills the magazine.
     */
    method FinishReload()
      requires Valid()
      modifies this, user
      ensures Valid() && !reloading && user == old(user) && fired == old(fired) && lastFired == old(lastFired)
      ensures user != null ==> && user.rect == old(user.rect) && user.health == old(user.health)
                               && user.inventory == old(user.inventory) && user.equipped == old(user.equipped)
      ensures user == null ==> ammo == magazineSize
      ensures user != null ==> && ammo == Min(magazineSize, old(ammo) + old(user.ammo))
                               && ammo + user.ammo == old(ammo) + old(user.ammo)
    {
      var taken: nat := magazineSize - ammo;
      if user != null {
        taken := Min(taken, user.ammo);
        user.ammo := user.ammo - taken;
      }
      ammo := ammo + taken;
      reloading := false;
    }
  }

  /** The weapon kinds held in an inventory. */
  function Kinds(inventory: seq<Weapon>): (ks: seq<WeaponKind>)
    ensures |ks| == |inventory| && forall i :: 0 <= i < |ks| ==> ks[i] == inventory[i].kind
  {
    seq(|inventory|, i requires 0 <= i < |inventory| => inventory[i].kind)
  }

  predicate DistinctKinds(ks: seq<WeaponKind>) {
    forall i, j :: 0 <= i < j < |ks| ==> ks[i] != ks[j]
  }

  /** Health, reserve rounds and the weapon kinds held. */
  datatype Pack = Pack(health: int, ammo: nat, kinds: seq<WeaponKind>)

  /**
   * What `handle_item` does to the player's pack: a rifle or shotgun is added
   * when there is room and none of its kind is held, health is capped at the
   * maximum, and ammunition is added uncapped.
   */
  function Pickup(p: Pack, item: Item): Pack {
    match item
    case WeaponItem(k) =>
      if |p.kinds| < INVENTORY_SIZE && (k == AssaultRifle || k == Shotgun) && k !in p.kinds
      then p.(kinds := p.kinds + [k]) else p
    case HealthItem(v) => p.(health := Min(p.health + v, MAX_PLAYER_HEALTH))
    case AmmoItem(v) => p.(ammo := p.ammo + v)
  }

  /** Picking up `items` in order. */
  function PickupAll(p: Pack, items: seq<Item>): Pack {
    if items == [] then p else Pickup(PickupAll(p, items[..|items| - 1]), items[|items| - 1])
  }

  function HealthSum(items: seq<Item>): nat {
    if items == [] then 0
    else HealthSum(items[..|items| - 1]) + (if items[|items| - 1].HealthItem? then items[|items| - 1].points else 0)
  }

  function AmmoSum(items: seq<Item>): nat {
    if items == [] then 0
    else AmmoSum(items[..|items| - 1]) + (if items[|items| - 1].AmmoItem? then items[|items| - 1].rounds else 0)
  }

  /**
   * Any run of pickups: health ends at the capped sum of the health items,
   * the reserve grows by exactly the ammunition picked up, and the weapon
   * kinds only grow, stay distinct and never exceed the inventory size.
   */
  lemma {:induction false} PickupAllSummary(p: Pack, items: seq<Item>)
    requires p.health <= MAX_PLAYER_HEALTH && |p.kinds| <= INVENTORY_SIZE && DistinctKinds(p.kinds)
    ensures var q := PickupAll(p, items);
      && q.health == Min(p.health + HealthSum(items), MAX_PLAYER_HEALTH)
      && q.ammo == p.ammo + AmmoSum(items)
      && p.kinds <= q.kinds && |q.kinds| <= INVENTORY_SIZE && DistinctKinds(q.kinds)
  {
    if items != [] {
      var init := items[..|items| - 1];
      PickupAllSummary(p, init);
      var q := PickupAll(p, init);
      if items[|items| - 1].WeaponItem? {
        var k := items[|items| - 1].name;
        if |q.kinds| < INVENTORY_SIZE && (k == AssaultRifle || k == Shotgun) && k !in q.kinds {
          assert p.kinds <= q.kinds + [k];
        }
      }
    }
  }

  /** Some obstacle overlaps `r` moved by `dx` across and `dy` down. */
  predicate Blocked(obstacles: seq<Rect>, r: Rect, dx: int, dy: int) {
    exists i :: 0 <= i < |obstacles| && Colliderect(obstacles[i], Moved(r, dx, dy))
  }

  class Player {
    var rect: Rect
    var health: int
    /** Reserve rounds, shared by all the player's weapons. */
    var ammo: nat
    var inventory: seq<Weapon>
    var equipped: Weapon

    /**
     * Health stays within 0..MAX_PLAYER_HEALTH; the inventory holds the pistol
     * first and at most INVENTORY_SIZE weapons of distinct kinds, all held by
     * this player; the equipped weapon is one of them.
     */
    ghost predicate Valid()
      reads this, inventory
    {
      && 0 <= health <= MAX_PLAYER_HEALTH
      && 1 <= |inventory| <= INVENTORY_SIZE
      && inventory[0].kind == Pistol
      && DistinctKinds(Kinds(inventory))
      && equipped in inventory
      && forall i :: 0 <= i < |inventory| ==> inventory[i].user == this && inventory[i].Valid()
    }

    /** A player at `rect` with full health, 50 reserve rounds and a pistol. */
    constructor(rect: Rect)
      ensures Valid() && fresh(equipped)
      ensures this.rect == rect && health == MAX_PLAYER_HEALTH && ammo == 50
      ensures inventory == [equipped] && equipped.kind == Pistol && equipped.ammo == MagazineSize(Pistol)
    {
      this.rect := rect;
      health := MAX_PLAYER_HEALTH;
      ammo := 50;
      var pistol := new Weapon(Pistol, null, BulletDamage(Pistol), FireRate(Pistol));
      inventory := [pistol];
      equipped := pistol;
      new;
      pistol.user := this;
    }

    /** Whether the inventory holds a weapon of `kind`. */
    predicate Holds(kind: WeaponKind)
      reads this
    {
      kind in Kinds(inventory)
    }

    /** `in_inventory`: scans the inventory for a weapon of `kind`. */
    method InInventory(kind: WeaponKind) returns (found: bool)
      ensures found <==> Holds(kind)
    {
      for i := 0 to |inventory|
        invariant kind !in Kinds(inventory[..i])
      {
        if inventory[i].kind == kind {
          assert Kinds(inventory)[i] == kind;
          return true;
        }
        assert Kinds(inventory[..i + 1]) == Kinds(inventory[..i]) + [inventory[i].kind];
      }
      assert inventory[..|inventory|] == inventory;
      return false;
    }

    /**
     * `check_collision`: each axis of a move is cancelled when some obstacle
     * overlaps the player's rectangle moved along that axis alone.
     */
    method CheckCollision(obstacles: seq<Rect>, dx: int, dy: int) returns (mx: int, my: int)
      ensures mx == if Blocked(obstacles, rect, dx, 0) then 0 else dx
      ensures my == if Blocked(obstacles, rect, 0, dy) then 0 else dy
    {
      mx, my := dx, dy;
      for i := 0 to |obstacles|
        invariant mx == if Blocked(obstacles[..i], rect, dx, 0) then 0 else dx
        invariant my == if Blocked(obstacles[..i], rect, 0, dy) then 0 else dy
      {
        assert forall k :: 0 <= k < i ==> obstacles[..i + 1][k] == obstacles[..i][k];
        assert obstacles[..i + 1][i] == obstacles[i];
        if Colliderect(obstacles[i], Moved(rect, mx, 0)) {
          mx := 0;
        }
        if Colliderect(obstacles[i], Moved(rect, 0, my)) {
          my := 0;
        }
      }
      assert obstacles[..|obstacles|] == obstacles;
    }

    /**
     * `shoot`: nothing while the equipped weapon reloads; fire it if its
     * magazine holds rounds; otherwise start a reload if the reserve holds any.
     */
    method Shoot(now: int)
      requires Valid()
      modifies equipped
      ensures Valid()
      ensures old(equipped.reloading) ==> unchanged(equipped)
      ensures !old(equipped.reloading) && old(equipped.ammo) != 0 ==>
        var n := ShotsFired(equipped.kind, old(equipped.ammo), old(equipped.lastFired), equipped.fireRate, now);
        && equipped.ammo == old(equipped.ammo) - n && equipped.reloading == false
        && equipped.fired == old(equipped.fired) + Volley(equipped.kind, equipped.bulletDamage, n)
        && equipped.lastFired == if n == 0 then old(equipped.lastFired) else now
      ensures !old(equipped.reloading) && old(equipped.ammo) == 0 ==>
        && equipped.reloading == (ammo != 0)
        && equipped.ammo == 0 && equipped.fired == old(equipped.fired)
        && equipped.lastFired == old(equipped.lastFired)
    {
      if equipped.reloading {
        return;
      }
      if equipped.ammo != 0 {
        equipped.Fire(now);
      } else if ammo != 0 {
        equipped.Reload();
      }
    }

    /** `take_damage`: health drops by `damage`, but not below zero. */
    method TakeDamage(damage: nat)
      requires Valid()
      modifies this`health
      ensures Valid() && health == Max(0, old(health) - damage)
    {
      health := Max(0, health - damage);
    }

    /** The part of the player's state that picking up items changes. */
    function Stats(): Pack
      reads this
    {
      Pack(health, ammo, Kinds(inventory))
    }

    /**
     * `handle_item`: applies `Pickup`; a weapon that joins the inventory is a
     * new one with a full magazine, held by this player.
     */
    method HandleItem(item: Item)
      requires Valid()
      modifies this
      ensures Valid() && rect == old(rect) && equipped == old(equipped)
      ensures Stats() == Pickup(old(Stats()), item)
      ensures |inventory| >= |old(inventory)| && inventory[..|old(inventory)|] == old(inventory)
      ensures forall i :: |old(inventory)| <= i < |inventory| ==>
        fresh(inventory[i]) && inventory[i].ammo == inventory[i].magazineSize
    {
      if item.WeaponItem? && |inventory| < INVENTORY_SIZE {
        if item.name == AssaultRifle || item.name == Shotgun {
          var held := InInventory(item.name);
          if !held {
            var w := new Weapon(item.name, this, BulletDamage(item.name), FireRate(item.name));
            assert Kinds(inventory + [w]) == Kinds(inventory) + [item.name];
            inventory := inventory + [w];
          }
        }
      } else if item.HealthItem? {
        health := Min(health + item.points, MAX_PLAYER_HEALTH);
      } else if item.AmmoItem? {
        ammo := ammo + item.rounds;
      }
    }

    /**
     * The equip branch of `handle_event`: key `keyNum` (1 to INVENTORY_SIZE)
     * equips that inventory slot, unless a reload is under way or the slot
     * is empty.
     */
    method Equip(keyNum: int)
      requires Valid() && 1 <= keyNum <= INVENTORY_SIZE
      modifies this`equipped
      ensures Valid()
      ensures equipped == if !old(equipped.reloading) && keyNum <= |inventory| then inventory[keyNum - 1] else old(equipped)
    {
      if !equipped.reloading && keyNum <= |inventory| {
        equipped := inventory[keyNum - 1];
      }
    }
  }

  datatype EnemyKind = BasicEnemy | ShotgunEnemy | SniperEnemy

  /** The weapon each kind of enemy carries. */
  function EnemyWeapon(k: EnemyKind): WeaponKind {
    match k
    case BasicEnemy => Pistol
    case ShotgunEnemy => Shotgun
    case SniperEnemy => Sniper
  }

  /** Enemy bullets are weaker than the player's: a pistol does 3 and a shotgun pellet 4. */
  function EnemyDamage(k: EnemyKind): nat {
    match k
    case BasicEnemy => 3
    case ShotgunEnemy => 4
    case SniperEnemy => BulletDamage(Sniper)
  }

  /** An enemy's pistol fires at most every 700 ms; the others keep their weapon's rate. */
  function EnemyFireRate(k: EnemyKind): nat {
    match k
    case BasicEnemy => 700
    case ShotgunEnemy => FireRate(Shotgun)
    case SniperEnemy => FireRate(Sniper)
  }

  /** Firing range in pixels. */
  function Range(k: EnemyKind): nat {
    match k
    case BasicEnemy => 300
    case ShotgunEnemy => 200
    case SniperEnemy => 350
  }

  const ENEMY_HEALTH: int := 40

  /** Euclidean distance at most `range`, compared exactly on squares. */
  predicate WithinRange(a: Point, b: Point, range: nat) {
    (a.x - b.x) * (a.x - b.x) + (a.y - b.y) * (a.y - b.y) <= range * range
  }

  class Enemy {
    const kind: EnemyKind
    const weapon: Weapon
    const range: nat
    var rect: Rect
    var health: int

    ghost predicate Valid()
      reads this, weapon
    {
      health >= 0 && weapon.user == null && weapon.Valid()
    }

    /** An enemy of `kind` whose top-left corner is at (`x`, `y`). */
    constructor(kind: EnemyKind, x: int, y: int, w: nat, h: nat)
      ensures Valid() && fresh(weapon) && this.kind == kind
      ensures rect == Rect(x, y, w, h) && health == ENEMY_HEALTH && range == Range(kind)
      ensures weapon.kind == EnemyWeapon(kind) && weapon.bulletDamage == EnemyDamage(kind)
      ensures weapon.fireRate == EnemyFireRate(kind) && weapon.ammo == weapon.magazineSize
      ensures !weapon.reloading && weapon.fired == []
    {
      this.kind := kind;
      rect := Rect(x, y, w, h);
      health := ENEMY_HEALTH;
      range := Range(kind);
      weapon := new Weapon(EnemyWeapon(kind), null, EnemyDamage(kind), EnemyFireRate(kind));
    }

    predicate IsAlive()
      reads this
    {
      health > 0
    }

    /** `take_damage`: health drops by `damage`, not below zero; the enemy dies iff the damage covers its health. */
    method TakeDamage(damage: nat)
      modifies this`health
      ensures health == Max(0, old(health) - damage)
      ensures IsAlive() <==> old(health) > damage
    {
      health := Max(0, health - damage);
    }

    /**
     * `shoot`: nothing while reloading; an empty magazine starts a reload
     * (the reserve never runs out); otherwise the weapon fires. The aim
     * jitter only changes the angle and is not modelled.
     */
    method Shoot(now: int)
      requires Valid()
      modifies weapon
      ensures Valid()
      ensures old(weapon.reloading) ==> unchanged(weapon)
      ensures !old(weapon.reloading) && old(weapon.ammo) == 0 ==>
        && weapon.reloading && weapon.ammo == 0
        && weapon.fired == old(weapon.fired) && weapon.lastFired == old(weapon.lastFired)
      ensures !old(weapon.reloading) && old(weapon.ammo) != 0 ==>
        var n := ShotsFired(weapon.kind, old(weapon.ammo), old(weapon.lastFired), weapon.fireRate, now);
        && weapon.ammo == old(weapon.ammo) - n && !weapon.reloading
        && weapon.fired == old(weapon.fired) + Volley(weapon.kind, weapon.bulletDamage, n)
        && weapon.lastFired == if n == 0 then old(weapon.lastFired) else now
    {
      if weapon.reloading {
        return;
      }
      if weapon.ammo == 0 {
        weapon.Reload();
        return;
      }
      weapon.Fire(now);
    }

    /**
     * The end of `update`: shoot at the target when it is within range, and
     * leave the weapon alone otherwise.
     */
    method Engage(target: Point, now: int)
      requires Valid()
      modifies weapon
      ensures Valid()
      ensures !WithinRange(Center(rect), target, range) || old(weapon.reloading) ==> unchanged(weapon)
      ensures WithinRange(Center(rect), target, range) && !old(weapon.reloading) && old(weapon.ammo) == 0 ==>
        && weapon.reloading && weapon.ammo == 0
        && weapon.fired == old(weapon.fired) && weapon.lastFired == old(weapon.lastFired)
      ensures WithinRange(Center(rect), target, range) && !old(weapon.reloading) && old(weapon.ammo) != 0 ==>
        var n := ShotsFired(weapon.kind, old(weapon.ammo), old(weapon.lastFired), weapon.fireRate, now);
        && weapon.ammo == old(weapon.ammo) - n && !weapon.reloading
        && weapon.fired == old(weapon.fired) + Volley(weapon.kind, weapon.bulletDamage, n)
        && weapon.lastFired == if n == 0 then old(weapon.lastFired) else now
    {
      if WithinRange(Center(rect), target, range) {
        Shoot(now);
      }
    }
  }
}
