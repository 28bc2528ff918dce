# async-ratatui core in Dafny

This project models the sequential core of the async-ratatui terminal demo:

- the shapes (`Balloon`, `Brick`) and their one-step physics (`entity.dfy`, module `Entities`);
- the decoding of a terminal event into at most one message, the model, and the reducer
  that handles one message at a time in place (`tui.dfy`, module `Tui`);
- properties over several messages: in-order consumption until a quit or an error,
  repeated ticks, and hover/click agreement on the canvas point (`properties.dfy`,
  module `TuiProperties`).

Entities are values. In the source they are `Clone` structs, owned by the model, with no
sharing. The tick works field by field on a local copy (`TickBalloon`, `TickBrick`,
`TickEntity`). Each of these methods is proved equal to a specification function
(`BalloonTicked`, `BrickTicked`, `Ticked`), and the physics properties are proved about
those functions. Because entities are values, the entity a click records is a copy. A later
pointer move cannot reach it (`ClickRecordsCopy`).

The model is the class `Tui.Model`. Its fields are the pointer position, the entity
sequence, the hover entity and the frame counter. `Model.Update` changes them in place;
the tick path is a loop over the entities. Its postcondition equates the new state and the
returned command with the pure reducer `Transition`. The per-message functions `OnTick`,
`OnRender`, `OnClick` and `OnHover` state what each message does.

The reducer's calls to the outside world are parameters, gathered in `Env`:

- the terminal height, with `None` when `terminal.size()` fails;
- whether drawing the frame succeeds;
- the random bit that picks Balloon or Brick.

The error paths follow the code:

- A click whose size query fails changes nothing.
- A hover whose size query fails has already recorded the pointer position and moved x, but not y.
- A render counts the frame before drawing, so a failed draw still counts it.

What the code does with the two shapes:

- Although named a balloon, the Balloon's tick adds its velocity to y. So a Balloon at or
  above its floor with non-negative velocity keeps rising and never lands again
  (`BalloonKeepsRising`). Every velocity the program holds is non-negative: the start-up
  Balloon and every clicked entity are at rest, a tick adds 0.10 or 0.75 or resets the
  velocity to 0, and a hover keeps it (`VelocitiesStayNonNegative`). So every Balloon the
  program records that is on or above its floor keeps rising (`ReachableBalloonKeepsRising`).
  The floor clamp only acts on a Balloon that was placed below its radius.
- A unit Brick dropped from y = 19 lands on the seventh tick
  (`BrickFromNineteenLandsOnSeventhTick`). A unit Balloon released at y = 19 never lands
  (`BalloonFromNineteenNeverLands`).
- `HandleEvent` produces at most one message per event.

## Model

| member | source | states |
|---|---|---|
| `Entities.BalloonTicked` | src/entity.rs:29-39 | only the circle's y and the velocity change; y ends at or above the radius; below-floor motion rests on the floor with velocity 0, otherwise the velocity grows by 0.10 and y moves by it |
| `Entities.TickBalloon` | src/entity.rs:29-39 | the field-by-field tick yields exactly the specified ticked Balloon |
| `Entities.BrickTicked` | src/entity.rs:65-75 | only the rectangle's y and the velocity change; y ends at or above the height; the Brick settles (y = height, velocity 0) exactly when its fall by velocity + 0.75 reaches the height, otherwise it falls by that velocity |
| `Entities.TickBrick` | src/entity.rs:65-75 | the field-by-field tick yields exactly the specified ticked Brick |
| `Entities.Ticked` | src/entity.rs:47-53 | an entity tick keeps the variant, x, size and colour, and leaves the entity on or above its floor |
| `Entities.TickEntity` | src/entity.rs:47-53 | dispatching on the variant yields exactly the specified entity tick |
| `Entities.EntityTicksByVariant` | src/entity.rs:47-53 | n entity ticks are n ticks of the entity's own variant; the variant never changes |
| `Entities.BalloonKeepsRising` | src/entity.rs:29-39 | a Balloon on or above its floor with non-negative velocity has velocity v + 0.10·n after n ticks, has risen by at least 0.10·n, and keeps x, radius and colour |
| `Entities.SettledBrickStaysSettled` | src/entity.rs:70-75 | a settled Brick is unchanged by any number of ticks |
| `Entities.BrickSettledForever` | src/entity.rs:65-75 | once a Brick has settled after k ticks, every later tick count gives the same Brick |
| `Entities.BrickFromNineteenLandsOnSeventhTick` | src/entity.rs:65-75 | a unit Brick at y = 19 with no velocity is still falling after 6 ticks (y = 3.25), settles at tick 7, and is the same after 50 ticks |
| `Entities.BalloonFromNineteenNeverLands` | src/entity.rs:29-39 | a unit Balloon at y = 19 with no velocity is strictly above its floor after every number of ticks |
| `Tui.HandleEvent` | src/lib.rs:143-166 | Esc press ⇔ Quit; left-button press ⇔ MouseLeftClick; pointer move ⇔ MouseHoverPos, with the event's row and column; input never yields Tick or Render, every other event yields nothing |
| `Tui.OnTick` | src/lib.rs:173-178 | same number of entities, each replaced in place by its own tick (same variant and shape, on or above its floor); hover entity, pointer position and frame counter unchanged |
| `Tui.OnRender` | src/lib.rs:179-183 | only the frame counter changes, by one; the result is Ok(None) exactly when the size query and the draw succeed, otherwise a render error |
| `Tui.OnClick` | src/lib.rs:184-216 | on a failed size query nothing changes and the size error is returned; otherwise the old hover entity is appended, and the new hover entity is at x = col, y = height − row with velocity 0: a radius-1 blue Balloon when the random bit is set, a 1×1 red Brick otherwise |
| `Tui.OnHover` | src/lib.rs:217-231 | pointer position becomes (row, col); entities and frame counter unchanged; the hover entity keeps its variant, size, colour and velocity and moves to x = col; y = height − row when the size query succeeds, unchanged and a size error otherwise |
| `Tui.Transition` | src/lib.rs:168-233 | Quit command ⇔ Quit message, and Quit changes nothing; entities grow by one exactly on a successful click and otherwise keep their length; only a tick rewrites entities, other messages keep them as a prefix; only Render advances the frame counter; only hover moves the pointer position |
| `Tui.Model.constructor` | src/lib.rs:62-79 | pointer at (0, 0), no entities, frame counter 0, hover entity a radius-1 blue Balloon at rest at the origin |
| `Tui.Model.View` | src/lib.rs:234-270 | changes nothing in the model; succeeds exactly when the size query and the draw succeed, drawing the hover entity first and then every entity in order |
| `Tui.Model.Update` | src/lib.rs:168-233 | the in-place update leaves the model and returns the command exactly as `Transition` specifies |
| `TuiProperties.Consume` | src/lib.rs:116-124 | messages go to the reducer in order; every message before the last consumed one returned Ok(None) from `Transition` on the model folded so far; the run stops at the first message whose `Transition` returns Quit or an error, and reports that result and the model it left; a drained run had Ok(None) from every message and ends on the model folded over all of them; no Quit is ever passed over |
| `TuiProperties.NothingAfterStop` | src/lib.rs:116-124 | once a quit or an error has stopped consumption, appending more messages changes neither the model nor the count consumed |
| `TuiProperties.EntitiesCountClicks` | src/lib.rs:184-189 | after any run, the number of entities is the initial number plus the clicks consumed whose size query succeeded |
| `TuiProperties.TickedVelocityNonNegative` | src/entity.rs:29-75 | a tick keeps a non-negative velocity non-negative: it grows by 0.10 or 0.75, or is reset to 0 on the floor |
| `TuiProperties.InitialVelocitiesNonNegative` | src/lib.rs:62-79 | the start-up model's velocities are non-negative (its hover Balloon is at rest) |
| `TuiProperties.VelocitiesStayNonNegative` | src/lib.rs:168-233 | every message keeps all velocities of the hover entity and the entities non-negative: clicks create entities at rest, hovers keep the velocity, ticks add gravity or reset |
| `TuiProperties.RunKeepsVelocitiesNonNegative` | src/lib.rs:116-124 | every model reached by a run from non-negative velocities has non-negative velocities |
| `TuiProperties.ReachableBalloonKeepsRising` | src/entity.rs:29-39 | a Balloon recorded in a model reached from start-up, on or above its floor, rises by at least 0.10 per tick under any number of ticks |
| `TuiProperties.TicksAdvanceEachEntity` | src/lib.rs:173-178 | n Tick messages tick each entity n times in place and leave the hover entity, pointer position and frame counter unchanged |
| `TuiProperties.SettledBrickStaysInModel` | src/lib.rs:173-178 | a settled Brick among the entities stays unchanged however many Tick messages follow |
| `TuiProperties.HoverThenClickAgree` | src/lib.rs:184-227 | a hover and then a click at the same (row, col) and height put the recorded entity and the new hover entity at the same canvas point (col, height − row) |
| `TuiProperties.ClickRecordsCopy` | src/lib.rs:188-189 | a pointer move after a click does not change the recorded entities: the click pushed a copy, not an alias |
| `TuiProperties.HoverAndClickOnEightyByTwentyFour` | src/lib.rs:184-227 | from start-up, with height 24, hover (5, 10) puts the hover entity at (10, 19); a click there records a single entity at (10, 19) and puts a fresh entity at rest at the same point |

## Left out

- The `tokio::select!` multiplexing in `Tui::run` is not modelled: the tick and frame timers, the channel receive and the `spawn_blocking` input poll are concurrency. Only the consumer's in-order handling of messages is modelled (`Consume`).
- Entering and leaving raw mode and the alternate screen (`enter`, `exit`, `Drop`) are terminal I/O and are not modelled.
- The channel is not modelled. `HandleEvent` returns the message instead of sending it, so the send failure when the receiver is gone is not modelled.
- `Tui.Model.View` returns the drawn primitives only. The canvas bounds, the title with the FPS value, the background colour, the marker and `ctx.layer()` belong to the rendering library and are not modelled.
- The FPS counter's module is not part of this model. It is an opaque count of recorded frames that Render increments; the rate computed from the wall clock is not modelled.
- `terminal.size()`, `terminal.draw` and `rand::random::<bool>()` are foreign calls. They are parameters (`Env`). One size answer serves the whole update call, which makes at most one size query.
- Coordinates and velocities are reals. IEEE-754 f64 rounding of the physics is not modelled. The u16-to-f64 conversions are exact in f64 as well.
- Key and mouse modifiers and the key event state are ignored by the source and not modelled. Key codes other than Esc and characters are one `OtherKey` case.
- Colours other than the blue and red used for entities are not modelled.
- The `Tui` fields other than the model (terminal, frame and tick rates, channel ends) and `src/main.rs` (runtime setup and process exit) are not modelled.
