/**
 * The car of app/car.py: a lane in 0..2, a position that advances by the
 * car's speed, an energy that collisions lower by a fixed amount per
 * obstacle label, and a jump that rises by 6 pixels per tick for
 * `jump_height` ticks and then falls by 6 per tick until it lands.
 *
 * `Car` keeps the source's fields and updates them in place; each method
 * states its whole new state through `State()`.  The pure functions below
 * are the step rules those methods follow, and the lemmas are about them.
 */
module Cars {

  // ---- lanes ----

  /** `move_up`: one lane up unless already in the top lane. */
  function Up(y: int): (r: int)
    ensures 0 <= y <= 2 ==> 0 <= r <= 2
    ensures r == y || r == y + 1
    ensures r == y <==> y >= 2
  {
    if y < 2 then y + 1 else y
  }

  /** `move_down`: one lane down unless already in the bottom lane. */
  function Down(y: int): (r: int)
    ensures 0 <= y <= 2 ==> 0 <= r <= 2
    ensures r == y || r == y - 1
    ensures r == y <==> y <= 0
  {
    if y > 0 then y - 1 else y
  }

  /** Away from the bounds, moving one lane and back returns to the same lane. */
  lemma UpThenDown(y: int)
    requires 0 <= y < 2
    ensures Down(Up(y)) == y
  {
  }

  lemma DownThenUp(y: int)
    requires 0 < y <= 2
    ensures Up(Down(y)) == y
  {
  }

  // ---- jumping ----

  /** The three jump fields: `is_jumping`, `jump_ticks` and `jump_offset`. */
  datatype JumpState = JumpState(jumping: bool, ticks: int, offset: int)

  /** The jump fields of a car on the ground. */
  const Grounded := JumpState(false, 0, 0)

  /** What the jump fields can be between updates: the offset is never negative, and zero on the ground. */
  predicate JumpOk(j: JumpState) {
    j.offset >= 0 && (!j.jumping ==> j.offset == 0)
  }

  /** `jump()`: a car already in the air is unaffected; one on the ground takes off with `jump_height` ticks to rise. */
  function StartJump(j: JumpState, jumpHeight: int): (r: JumpState)
    ensures r.jumping
    ensures j.jumping ==> r == j
    ensures !j.jumping ==> r.ticks == jumpHeight && r.offset == 0
    ensures JumpOk(j) ==> JumpOk(r)
  {
    if !j.jumping then JumpState(true, jumpHeight, 0) else j
  }

  /** `update_jump()`: one tick of the jump. */
  function StepJump(j: JumpState): (r: JumpState)
    ensures !j.jumping ==> r == j
    ensures r.jumping ==> j.jumping
    ensures j.jumping && j.ticks > 0 ==> r.jumping && r.ticks == j.ticks - 1 && r.offset == j.offset + 6
    ensures j.jumping && j.ticks <= 0 ==> r.ticks == j.ticks && (r.offset == j.offset - 6 || r.offset == 0)
    ensures j.jumping && j.ticks <= 0 ==> (r.jumping <==> j.offset > 6)
    ensures j.jumping && j.ticks <= 0 && r.jumping ==> r.offset == j.offset - 6
    ensures j.jumping && !r.jumping ==> r.offset == 0
    ensures JumpOk(j) ==> JumpOk(r)
  {
    if !j.jumping then j
    else if j.ticks > 0 then j.(offset := j.offset + 6, ticks := j.ticks - 1)
    else if j.offset - 6 <= 0 then j.(offset := 0, jumping := false)
    else j.(offset := j.offset - 6)
  }

  /** `n` consecutive calls of `update_jump`. */
  function Run(j: JumpState, n: nat): JumpState
    decreases n
  {
    if n == 0 then j else Run(StepJump(j), n - 1)
  }

  lemma {:induction false} RunAdd(j: JumpState, a: nat, b: nat)
    ensures Run(j, a + b) == Run(Run(j, a), b)
    decreases a
  {
    if a > 0 {
      RunAdd(StepJump(j), a - 1, b);
    }
  }

  /** Every run of updates keeps the jump fields well formed. */
  lemma {:induction false} RunKeepsJumpOk(j: JumpState, n: nat)
    requires JumpOk(j)
    ensures JumpOk(Run(j, n))
    decreases n
  {
    if n > 0 {
      RunKeepsJumpOk(StepJump(j), n - 1);
    }
  }

  /** While ticks remain, each update lifts the car by 6 and uses up one tick. */
  lemma {:induction false} Rising(j: JumpState, k: nat)
    requires j.jumping && k <= j.ticks
    ensures Run(j, k) == JumpState(true, j.ticks - k, j.offset + 6 * k)
    decreases k
  {
    if k > 0 {
      Rising(StepJump(j), k - 1);
    }
  }

  /** With no ticks left, a car `6 * m` pixels up is `6 * (m - i)` up after `i < m` updates. */
  lemma {:induction false} Falling(t: int, m: nat, i: nat)
    requires t <= 0 && i < m
    ensures Run(JumpState(true, t, 6 * m), i) == JumpState(true, t, 6 * (m - i))
    decreases i
  {
    if i > 0 {
      Falling(t, m - 1, i - 1);
    }
  }

  /** ... and on the ground after exactly `m` updates. */
  lemma Lands(t: int, m: nat)
    requires t <= 0 && m >= 1
    ensures Run(JumpState(true, t, 6 * m), m) == JumpState(false, t, 0)
  {
    Falling(t, m, m - 1);
    RunAdd(JumpState(true, t, 6 * m), m - 1, 1);
  }

  /** The number of updates a jump of `jump_height` spends in the air. */
  function AirTime(jumpHeight: int): (n: nat)
    ensures n >= 1
  {
    if jumpHeight > 0 then 2 * jumpHeight else 1
  }

  /**
   * A jump from the ground rises to `6 * jump_height` pixels in
   * `jump_height` updates, comes back down at the same rate, and lands
   * after `AirTime` updates with its ticks used up; a jump height of zero
   * or less lands on the first update.
   */
  lemma JumpLands(jumpHeight: int)
    ensures var start := StartJump(Grounded, jumpHeight);
      Run(start, AirTime(jumpHeight)) == JumpState(false, if jumpHeight > 0 then 0 else jumpHeight, 0)
  {
    var start := StartJump(Grounded, jumpHeight);
    if jumpHeight > 0 {
      assert start == JumpState(true, jumpHeight, 0);
      Rising(start, jumpHeight);
      var peak := Run(start, jumpHeight);
      assert peak == JumpState(true, 0, 6 * jumpHeight);
      Lands(0, jumpHeight);
      RunAdd(start, jumpHeight, jumpHeight);
      assert AirTime(jumpHeight) == jumpHeight + jumpHeight;
    } else {
      assert Run(start, 1) == Run(StepJump(start), 0);
    }
  }

  /** In flight the offset traces a triangle: up by 6 per update to the peak, then down by 6. */
  lemma JumpPath(jumpHeight: int, k: nat)
    requires jumpHeight > 0 && k < AirTime(jumpHeight)
    ensures var j := Run(StartJump(Grounded, jumpHeight), k);
      j.jumping && j.offset == 6 * (if k <= jumpHeight then k else 2 * jumpHeight - k)
  {
    var start := StartJump(Grounded, jumpHeight);
    if k <= jumpHeight {
      Rising(start, k);
    } else {
      Rising(start, jumpHeight);
      Falling(0, jumpHeight, k - jumpHeight);
      RunAdd(start, jumpHeight, k - jumpHeight);
    }
  }

  // ---- collisions ----

  /** `obstacle.get("tipo", "obstaculo")`: the obstacle's label, or `"obstaculo"` when it has none. */
  function Label(obstacle: map<string, string>): (tipo: string)
    ensures "tipo" in obstacle ==> tipo == obstacle["tipo"]
    ensures "tipo" !in obstacle ==> tipo == "obstaculo"
  {
    if "tipo" in obstacle then obstacle["tipo"] else "obstaculo"
  }

  /** The labels `collide` charges its own amount for. */
  const KnownObstacles: set<string> := {"roca", "hueco", "cono", "aceite", "peaton"}

  /** The energy `collide` takes for an obstacle label. */
  function EnergyLoss(tipo: string): (loss: int)
    ensures 5 <= loss <= 50
    ensures loss == 5 <==> tipo !in KnownObstacles
    ensures tipo == "peaton" <==> loss == 50
  {
    if tipo == "roca" then 20
    else if tipo == "hueco" then 30
    else if tipo == "cono" then 10
    else if tipo == "aceite" then 15
    else if tipo == "peaton" then 50
    else 5
  }

  // ---- the car ----

  /** All the fields of a car, as one value. */
  datatype CarState = CarState(
    x: int, y: int, energy: int, color: string, speed: int, jumpHeight: int, jump: JumpState)

  class Car {
    var x: int
    var y: int
    var energy: int
    var color: string
    var speed: int
    var jumpHeight: int
    var isJumping: bool
    var jumpTicks: int
    var jumpOffset: int

    function Jumping(): JumpState
      reads this
    {
      JumpState(isJumping, jumpTicks, jumpOffset)
    }

    function State(): CarState
      reads this
    {
      CarState(x, y, energy, color, speed, jumpHeight, Jumping())
    }

    /** The car is in one of the three lanes and its jump fields are well formed. */
    ghost predicate Valid()
      reads this
    {
      0 <= y <= 2 && JumpOk(Jumping())
    }

    /**
     * `Car(color, energy, speed, jump_height)`, with the source's defaults
     * "blue", 100, 5 and 10: at `x = 0` in the middle lane, on the ground.
     */
    constructor (color: string := "blue", energy: int := 100, speed: int := 5, jumpHeight: int := 10)
      ensures State() == CarState(0, 1, energy, color, speed, jumpHeight, Grounded)
      ensures Valid()
    {
      this.x := 0;
      this.y := 1;
      this.energy := energy;
      this.color := color;
      this.speed := speed;
      this.jumpHeight := jumpHeight;
      this.isJumping := false;
      this.jumpTicks := 0;
      this.jumpOffset := 0;
    }

    /** `move_forward`: advance by the car's speed; nothing else changes. */
    method MoveForward()
      modifies this
      ensures State() == old(State()).(x := old(x) + old(speed))
      ensures old(Valid()) ==> Valid()
    {
      x := x + speed;
    }

    /** `move_up`. */
    method MoveUp()
      modifies this
      ensures State() == old(State()).(y := Up(old(y)))
      ensures old(Valid()) ==> Valid()
    {
      if y < 2 {
        y := y + 1;
      }
    }

    /** `move_down`. */
    method MoveDown()
      modifies this
      ensures State() == old(State()).(y := Down(old(y)))
      ensures old(Valid()) ==> Valid()
    {
      if y > 0 {
        y := y - 1;
      }
    }

    /** `jump`: take off unless already in the air. */
    method Jump()
      modifies this
      ensures State() == old(State()).(jump := StartJump(old(Jumping()), old(jumpHeight)))
      ensures old(Valid()) ==> Valid()
    {
      if !isJumping {
        isJumping := true;
        jumpTicks := jumpHeight;
        jumpOffset := 0;
      }
    }

    /** `update_jump`: one tick of the jump. */
    method UpdateJump()
      modifies this
      ensures State() == old(State()).(jump := StepJump(old(Jumping())))
      ensures old(Valid()) ==> Valid()
    {
      if isJumping {
        if jumpTicks > 0 {
          jumpOffset := jumpOffset + 6;
          jumpTicks := jumpTicks - 1;
        } else {
          jumpOffset := jumpOffset - 6;
          if jumpOffset <= 0 {
            jumpOffset := 0;
            isJumping := false;
          }
        }
      }
    }

    /** `get_icon_key`: the jumping picture exactly while in the air. */
    function IconKey(): (k: string)
      reads this
      ensures k == "car_jump" <==> isJumping
      ensures k == "car" <==> !isJumping
    {
      if isJumping then "car_jump" else "car"
    }

    /** `collide(obstacle)`: lose the obstacle's energy; the energy is not clamped. */
    method Collide(obstacle: map<string, string>)
      modifies this
      ensures State() == old(State()).(energy := old(energy) - EnergyLoss(Label(obstacle)))
      ensures old(Valid()) ==> Valid()
    {
      var tipo := if "tipo" in obstacle then obstacle["tipo"] else "obstaculo";
      if tipo == "roca" {
        energy := energy - 20;
      } else if tipo == "hueco" {
        energy := energy - 30;
      } else if tipo == "cono" {
        energy := energy - 10;
      } else if tipo == "aceite" {
        energy := energy - 15;
      } else if tipo == "peaton" {
        energy := energy - 50;
      } else {
        energy := energy - 5;
      }
    }
  }
}
