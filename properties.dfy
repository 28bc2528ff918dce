/** Properties of the reducer over more than one message: consuming messages
    in order until one stops the loop, repeated ticks, and the agreement of
    the hover and click paths on the canvas point. */
module TuiProperties {
  import opened Wrappers
  import opened Entities
  import opened Tui

  // ---------------------------------------------------------------------------
  // Consuming messages in receipt order
  // ---------------------------------------------------------------------------

  /** Why consumption stopped: the messages ran out, the reducer asked to
      quit, or an update failed. */
  datatype Stop = Drained | QuitRequested | Failed(error: UpdateError)

  datatype Run = Run(model: ModelState, consumed: nat, stop: Stop)

  /** The model after the reducer has handled the first `k` messages, whatever
      each of them returned. */
  function Fold(s: ModelState, steps: seq<(Message, Env)>, k: nat): ModelState
    requires k <= |steps|
    decreases k
  {
    if k == 0 then s else Fold(Transition(s, steps[0].0, steps[0].1).model, steps[1..], k - 1)
  }

  /** Feeds each message, with what the outside world answers on that call,
      to the reducer in order; the first quit command or error ends the run
      and no later message is looked at. */
  function Consume(s: ModelState, steps: seq<(Message, Env)>): (r: Run)
    ensures r.consumed <= |steps|
    ensures forall j :: 0 <= j < r.consumed - 1 ==> steps[j].0 != Message.Quit
    ensures forall j :: 0 <= j < r.consumed - 1 ==>
              Transition(Fold(s, steps, j), steps[j].0, steps[j].1).result == Ok(UpdateCommand.None)
    ensures r.stop == Drained ==> r.consumed == |steps| && forall j :: 0 <= j < |steps| ==> steps[j].0 != Message.Quit
    ensures r.stop == Drained ==>
              && (forall j :: 0 <= j < |steps| ==>
                    Transition(Fold(s, steps, j), steps[j].0, steps[j].1).result == Ok(UpdateCommand.None))
              && r.model == Fold(s, steps, |steps|)
    ensures r.stop == QuitRequested ==> 0 < r.consumed && steps[r.consumed - 1].0 == Message.Quit
    ensures r.stop.Failed? ==> 0 < r.consumed && steps[r.consumed - 1].0 != Message.Quit
    ensures r.stop != Drained ==>
              && 0 < r.consumed
              && Transition(Fold(s, steps, r.consumed - 1), steps[r.consumed - 1].0, steps[r.consumed - 1].1)
                 == Outcome(if r.stop.Failed? then Err(r.stop.error) else Ok(UpdateCommand.Quit), r.model)
    decreases |steps|
  {
    if steps == [] then Run(s, 0, Drained)
    else
      var o := Transition(s, steps[0].0, steps[0].1);
      if o.result == Ok(UpdateCommand.None) then
        var rest := Consume(o.model, steps[1..]);
        Run(rest.model, rest.consumed + 1, rest.stop)
      else if o.result.Ok? then Run(o.model, 1, QuitRequested)
      else Run(o.model, 1, Failed(o.result.error))
  }

  /** Once the reducer has asked to quit or failed, later messages make no
      difference: nothing after the stopping message is consumed. */
  lemma {:induction false} NothingAfterStop(s: ModelState, steps: seq<(Message, Env)>, later: seq<(Message, Env)>)
    requires Consume(s, steps).stop != Drained
    ensures Consume(s, steps + later) == Consume(s, steps)
    decreases |steps|
  {
    var o := Transition(s, steps[0].0, steps[0].1);
    assert (steps + later)[0] == steps[0];
    if o.result == Ok(UpdateCommand.None) {
      assert (steps + later)[1..] == steps[1..] + later;
      NothingAfterStop(o.model, steps[1..], later);
    }
  }

  /** The number of clicks among `steps` whose size query succeeds. */
  function SuccessfulClicks(steps: seq<(Message, Env)>): nat {
    if steps == [] then 0
    else SuccessfulClicks(steps[..|steps| - 1])
         + (if steps[|steps| - 1].0.MouseLeftClick? && steps[|steps| - 1].1.height.Some? then 1 else 0)
  }

  lemma {:induction false} SuccessfulClicksCons(step: (Message, Env), steps: seq<(Message, Env)>)
    ensures SuccessfulClicks([step] + steps)
            == (if step.0.MouseLeftClick? && step.1.height.Some? then 1 else 0) + SuccessfulClicks(steps)
    decreases |steps|
  {
    if steps != [] {
      var init := steps[..|steps| - 1];
      assert ([step] + steps)[..|steps|] == [step] + init;
      SuccessfulClicksCons(step, init);
    }
  }

  /** The entities only grow by clicks: after any run, there is exactly one
      more entity per click consumed whose size query succeeded. */
  lemma {:induction false} EntitiesCountClicks(s: ModelState, steps: seq<(Message, Env)>)
    ensures var r := Consume(s, steps);
            |r.model.entities| == |s.entities| + SuccessfulClicks(steps[..r.consumed])
    decreases |steps|
  {
    if steps != [] {
      var o := Transition(s, steps[0].0, steps[0].1);
      var r := Consume(s, steps);
      if o.result == Ok(UpdateCommand.None) {
        EntitiesCountClicks(o.model, steps[1..]);
        var rest := Consume(o.model, steps[1..]);
        assert steps[..r.consumed] == [steps[0]] + steps[1..][..rest.consumed];
        SuccessfulClicksCons(steps[0], steps[1..][..rest.consumed]);
      } else {
        assert steps[..r.consumed] == [steps[0]] + [];
        SuccessfulClicksCons(steps[0], []);
      }
    }
  }

  // ---------------------------------------------------------------------------
  // Velocities never become negative
  // ---------------------------------------------------------------------------

  /** Every entity the model holds, the hover entity included, has a
      non-negative vertical velocity. */
  predicate VelocitiesNonNegative(s: ModelState) {
    && VelocityY(s.hoverEntity) >= 0.0
    && forall i :: 0 <= i < |s.entities| ==> VelocityY(s.entities[i]) >= 0.0
  }

  /** A tick leaves a velocity that was not negative non-negative: it either
      grows by the gravity constant or is reset to zero on the floor. */
  lemma TickedVelocityNonNegative(e: Entity)
    requires VelocityY(e) >= 0.0
    ensures VelocityY(Ticked(e)) >= 0.0
  {
  }

  /** The start-up hover Balloon is at rest and there are no other entities. */
  lemma InitialVelocitiesNonNegative()
    ensures VelocitiesNonNegative(Initial())
  {
  }

  /** Every message keeps velocities non-negative, whatever the outside world
      answers. */
  lemma VelocitiesStayNonNegative(s: ModelState, msg: Message, env: Env)
    requires VelocitiesNonNegative(s)
    ensures VelocitiesNonNegative(Transition(s, msg, env).model)
  {
  }

  /** Along any run from a model with non-negative velocities, every model
      reached keeps them non-negative. */
  lemma {:induction false} RunKeepsVelocitiesNonNegative(s: ModelState, steps: seq<(Message, Env)>)
    requires VelocitiesNonNegative(s)
    ensures VelocitiesNonNegative(Consume(s, steps).model)
    decreases |steps|
  {
    if steps != [] {
      VelocitiesStayNonNegative(s, steps[0].0, steps[0].1);
      var o := Transition(s, steps[0].0, steps[0].1);
      if o.result == Ok(UpdateCommand.None) {
        RunKeepsVelocitiesNonNegative(o.model, steps[1..]);
      }
    }
  }

  /** Every Balloon held by a model reached from start-up, and on or above its
      floor, keeps rising under any number of ticks: its velocity is never
      negative, so the floor clamp never applies to it again. */
  lemma ReachableBalloonKeepsRising(steps: seq<(Message, Env)>, i: nat, n: nat)
    requires var m := Consume(Initial(), steps).model;
             i < |m.entities| && m.entities[i].BalloonEntity?
             && m.entities[i].balloon.circle.y >= m.entities[i].balloon.circle.radius
    ensures var b := Consume(Initial(), steps).model.entities[i].balloon;
            BalloonTicks(b, n).circle.y >= b.circle.y + (n as real) * BalloonGravity
  {
    InitialVelocitiesNonNegative();
    RunKeepsVelocitiesNonNegative(Initial(), steps);
    var m := Consume(Initial(), steps).model;
    assert VelocityY(m.entities[i]) >= 0.0;
    BalloonKeepsRising(m.entities[i].balloon, n);
  }

  // ---------------------------------------------------------------------------
  // Repeated ticks
  // ---------------------------------------------------------------------------

  /** The model after `n` tick messages. */
  function TickTimes(s: ModelState, n: nat, env: Env): ModelState {
    if n == 0 then s else Transition(TickTimes(s, n - 1, env), Message.Tick, env).model
  }

  /** Ticking the model `n` times ticks every entity `n` times, in place, and
      leaves the hover entity, the pointer position and the frame counter alone. */
  lemma {:induction false} TicksAdvanceEachEntity(s: ModelState, n: nat, env: Env)
    ensures |TickTimes(s, n, env).entities| == |s.entities|
    ensures forall i :: 0 <= i < |s.entities| ==> TickTimes(s, n, env).entities[i] == EntityTicks(s.entities[i], n)
    ensures TickTimes(s, n, env).hoverEntity == s.hoverEntity
    ensures TickTimes(s, n, env).hoverPos == s.hoverPos && TickTimes(s, n, env).fpsFrames == s.fpsFrames
  {
    if n > 0 {
      TicksAdvanceEachEntity(s, n - 1, env);
    }
  }

  /** A Brick resting on its floor in the model stays exactly where it is
      however many ticks follow. */
  lemma {:induction false} SettledBrickStaysInModel(s: ModelState, n: nat, env: Env, i: nat)
    requires i < |s.entities| && s.entities[i].BrickEntity? && BrickSettled(s.entities[i].brick)
    ensures i < |TickTimes(s, n, env).entities| && TickTimes(s, n, env).entities[i] == s.entities[i]
  {
    TicksAdvanceEachEntity(s, n, env);
    EntityTicksByVariant(s.entities[i], n);
    SettledBrickStaysSettled(s.entities[i].brick, n);
  }

  // ---------------------------------------------------------------------------
  // Hover and click agree on the canvas point
  // ---------------------------------------------------------------------------

  /** Moving the pointer to (row, col) and then clicking there, with the
      terminal height unchanged, puts the recorded entity and the new hover
      entity at the same canvas point (col, height - row). */
  lemma HoverThenClickAgree(s: ModelState, row: U16, col: U16, h: U16, hoverEnv: Env, clickEnv: Env)
    requires hoverEnv.height == Some(h) && clickEnv.height == Some(h)
    ensures var hovered := Transition(s, MouseHoverPos(row, col), hoverEnv).model;
            var clicked := Transition(hovered, MouseLeftClick(row, col), clickEnv).model;
            && |clicked.entities| == |s.entities| + 1
            && X(clicked.entities[|s.entities|]) == X(clicked.hoverEntity) == col as real
            && Y(clicked.entities[|s.entities|]) == Y(clicked.hoverEntity) == h as real - row as real
  {
  }

  /** A click records a copy: pointer moves after the click move the new hover
      entity and never the recorded one. */
  lemma ClickRecordsCopy(s: ModelState, row: U16, col: U16, row': U16, col': U16, clickEnv: Env, hoverEnv: Env)
    requires clickEnv.height.Some?
    ensures var clicked := Transition(s, MouseLeftClick(row, col), clickEnv).model;
            var moved := Transition(clicked, MouseHoverPos(row', col'), hoverEnv).model;
            moved.entities == s.entities + [s.hoverEntity]
  {
  }

  /** The scenario on an 80 x 24 terminal: from start-up, a hover at row 5,
      column 10 puts the hover entity at canvas (10, 19); a click there then
      records it as the only entity and places a fresh entity, at rest, on the
      same point. */
  lemma HoverAndClickOnEightyByTwentyFour(coin: bool)
    ensures var env := Env(Some(24), true, coin);
            var hovered := Transition(Initial(), MouseHoverPos(5, 10), env).model;
            var clicked := Transition(hovered, MouseLeftClick(5, 10), env).model;
            && X(hovered.hoverEntity) == 10.0 && Y(hovered.hoverEntity) == 19.0
            && |clicked.entities| == 1
            && clicked.entities[0] == BalloonEntity(Balloon(Circle(10.0, 19.0, 1.0, Blue), 0.0))
            && X(clicked.hoverEntity) == 10.0 && Y(clicked.hoverEntity) == 19.0
            && VelocityY(clicked.hoverEntity) == 0.0
  {
  }
}
