/** The application core: the messages the event loop feeds to the reducer,
    the decoding of terminal input into messages, and the Model that the
    reducer changes in place.  Terminal input is decoded by a total function;
    the reducer is specified by the pure `Transition` and carried out by
    `Model.Update` on the fields of the model. */
module Tui {
  import opened Wrappers
  import opened Entities

  /** Terminal cell coordinates and sizes are unsigned 16-bit integers. */
  type U16 = x: int | 0 <= x < 0x1_0000

  datatype Message =
    | Quit
    | Tick
    | Render
    | MouseLeftClick(row: U16, col: U16)
    | MouseHoverPos(row: U16, col: U16)

  /** What the reducer tells the event loop to do next. */
  datatype UpdateCommand = None | Quit

  /** The ways an update can fail: the terminal size query, or drawing the frame. */
  datatype UpdateError = SizeQueryFailed | RenderFailed

  // ---------------------------------------------------------------------------
  // Terminal input events
  // ---------------------------------------------------------------------------

  datatype KeyEventKind = Press | Repeat | Release

  /** The key that was pressed; every key other than Esc and a character is `OtherKey`. */
  datatype KeyCode = Esc | Char(c: char) | OtherKey

  datatype KeyEvent = KeyEvent(code: KeyCode, kind: KeyEventKind)

  datatype MouseButton = Left | Right | Middle

  datatype MouseEventKind =
    | Down(button: MouseButton)
    | Up(button: MouseButton)
    | Drag(button: MouseButton)
    | Moved
    | ScrollDown
    | ScrollUp
    | ScrollLeft
    | ScrollRight

  datatype MouseEvent = MouseEvent(kind: MouseEventKind, column: U16, row: U16)

  datatype Event =
    | FocusGained
    | FocusLost
    | Key(key: KeyEvent)
    | Mouse(mouse: MouseEvent)
    | Paste(text: string)
    | Resize(columns: U16, rows: U16)

  /** Decodes one terminal event into at most one message: a pressed Esc
      quits, a left-button press clicks, a pointer move hovers, and every
      other event is ignored.  Input never produces the timer messages. */
  function HandleEvent(e: Event): (m: Option<Message>)
    ensures m.Some? ==> !m.value.Tick? && !m.value.Render?
    ensures m == Some(Message.Quit) <==> e.Key? && e.key.kind == Press && e.key.code == Esc
    ensures (m.Some? && m.value.MouseLeftClick?) <==> e.Mouse? && e.mouse.kind == Down(Left)
    ensures (m.Some? && m.value.MouseHoverPos?) <==> e.Mouse? && e.mouse.kind == Moved
    ensures m.Some? && (m.value.MouseLeftClick? || m.value.MouseHoverPos?) ==>
              m.value.row == e.mouse.row && m.value.col == e.mouse.column
  {
    match e
    case Key(key) =>
      if key.kind == Press && key.code == Esc then Some(Message.Quit) else Option.None
    case Mouse(mouse) =>
      (match mouse.kind
       case Down(mb) =>
         if mb == Left then Some(MouseLeftClick(mouse.row, mouse.column)) else Option.None
       case Moved => Some(MouseHoverPos(mouse.row, mouse.column))
       case _ => Option.None)
    case _ => Option.None
  }

  // ---------------------------------------------------------------------------
  // The reducer, as a specification on model values
  // ---------------------------------------------------------------------------

  /** A snapshot of the model.  `fpsFrames` stands for the frame-rate counter,
      of which only the number of recorded frames is modelled. */
  datatype ModelState = ModelState(
    hoverPos: (U16, U16),
    entities: seq<Entity>,
    hoverEntity: Entity,
    fpsFrames: nat)

  /** What the reducer learns from outside the model on one call: the terminal
      height (`None` when the size query fails), whether drawing a frame
      succeeds, and the random bit that picks the next hover entity. */
  datatype Env = Env(height: Option<U16>, drawOk: bool, coin: bool)

  datatype Outcome = Outcome(result: Result<UpdateCommand, UpdateError>, model: ModelState)

  /** The model at start-up: pointer at the origin, no entities, and a unit
      blue Balloon at rest at the origin as the hover entity. */
  function Initial(): ModelState {
    ModelState((0, 0), [], BalloonEntity(Balloon(Circle(0.0, 0.0, 1.0, Blue), 0.0)), 0)
  }

  /** A tick advances every entity by its own law, in order, and touches
      nothing else. */
  function OnTick(s: ModelState): (t: ModelState)
    ensures |t.entities| == |s.entities|
    ensures forall i :: 0 <= i < |s.entities| ==> t.entities[i] == Ticked(s.entities[i])
    ensures forall i :: 0 <= i < |s.entities| ==> SameShape(t.entities[i], s.entities[i]) && AboveFloor(t.entities[i])
    ensures t.hoverPos == s.hoverPos && t.hoverEntity == s.hoverEntity && t.fpsFrames == s.fpsFrames
  {
    s.(entities := seq(|s.entities|, i requires 0 <= i < |s.entities| => Ticked(s.entities[i])))
  }

  /** A render records one frame and then draws; only the frame counter
      changes, and the update fails exactly when the frame cannot be drawn. */
  function OnRender(s: ModelState, env: Env): (o: Outcome)
    ensures o.model == s.(fpsFrames := s.fpsFrames + 1)
    ensures o.result.Ok? <==> env.height.Some? && env.drawOk
    ensures o.result == Ok(UpdateCommand.None) || o.result == Err(RenderFailed)
  {
    var s' := s.(fpsFrames := s.fpsFrames + 1);
    if env.height.Some? && env.drawOk then Outcome(Ok(UpdateCommand.None), s')
    else Outcome(Err(RenderFailed), s')
  }

  /** A left click appends a snapshot of the hover entity to the entities and
      replaces the hover entity by a new one at the clicked canvas point. */
  function OnClick(s: ModelState, row: U16, col: U16, env: Env): (o: Outcome)
    ensures env.height.None? ==> o == Outcome(Err(SizeQueryFailed), s)
    ensures env.height.Some? ==>
              && o.result == Ok(UpdateCommand.None)
              && o.model.entities == s.entities + [s.hoverEntity]
              && o.model.hoverPos == s.hoverPos
              && o.model.fpsFrames == s.fpsFrames
    ensures env.height.Some? ==>
              && X(o.model.hoverEntity) == col as real
              && Y(o.model.hoverEntity) == env.height.value as real - row as real
              && VelocityY(o.model.hoverEntity) == 0.0
              && (o.model.hoverEntity.BalloonEntity? <==> env.coin)
    ensures env.height.Some? && env.coin ==>
              o.model.hoverEntity.balloon.circle.radius == 1.0 && o.model.hoverEntity.balloon.circle.color == Blue
    ensures env.height.Some? && !env.coin ==>
              && o.model.hoverEntity.brick.rectangle.width == 1.0
              && o.model.hoverEntity.brick.rectangle.height == 1.0
              && o.model.hoverEntity.brick.rectangle.color == Red
  {
    match env.height
    case None => Outcome(Err(SizeQueryFailed), s)
    case Some(h) =>
      var x := col as real;
      var y := h as real - row as real;
      var clickedEntity := s.hoverEntity;
      var newEntity :=
        if env.coin then BalloonEntity(Balloon(Circle(x, y, 1.0, Blue), 0.0))
        else BrickEntity(Brick(Rectangle(x, y, 1.0, 1.0, Red), 0.0));
      Outcome(Ok(UpdateCommand.None), s.(entities := s.entities + [clickedEntity], hoverEntity := newEntity))
  }

  /** A pointer move records the pointer position and moves the hover entity
      to the matching canvas point, keeping its variant, size, colour and
      velocity.  The position is recorded, and x moved, before the terminal
      size is asked for, so a failing size query leaves y where it was. */
  function OnHover(s: ModelState, row: U16, col: U16, env: Env): (o: Outcome)
    ensures o.model.hoverPos == (row, col)
    ensures o.model.entities == s.entities && o.model.fpsFrames == s.fpsFrames
    ensures DiffersOnlyInPosition(o.model.hoverEntity, s.hoverEntity)
    ensures X(o.model.hoverEntity) == col as real
    ensures env.height.Some? ==>
              o.result == Ok(UpdateCommand.None) && Y(o.model.hoverEntity) == env.height.value as real - row as real
    ensures env.height.None? ==>
              o.result == Err(SizeQueryFailed) && Y(o.model.hoverEntity) == Y(s.hoverEntity)
  {
    var s' := s.(hoverPos := (row, col));
    match s.hoverEntity
    case BalloonEntity(balloon) =>
      var moved := balloon.(circle := balloon.circle.(x := col as real));
      if env.height.None? then Outcome(Err(SizeQueryFailed), s'.(hoverEntity := BalloonEntity(moved)))
      else
        var placed := moved.(circle := moved.circle.(y := env.height.value as real - row as real));
        Outcome(Ok(UpdateCommand.None), s'.(hoverEntity := BalloonEntity(placed)))
    case BrickEntity(brick) =>
      var moved := brick.(rectangle := brick.rectangle.(x := col as real));
      if env.height.None? then Outcome(Err(SizeQueryFailed), s'.(hoverEntity := BrickEntity(moved)))
      else
        var placed := moved.(rectangle := moved.rectangle.(y := env.height.value as real - row as real));
        Outcome(Ok(UpdateCommand.None), s'.(hoverEntity := BrickEntity(placed)))
  }

  /** The reducer: one message, one new model and one command.  Only `Quit`
      yields the quit command and it changes nothing; the entities only ever
      grow at the end, except that a tick moves them. */
  function Transition(s: ModelState, msg: Message, env: Env): (o: Outcome)
    ensures o.result == Ok(UpdateCommand.Quit) <==> msg == Message.Quit
    ensures msg == Message.Quit ==> o.model == s
    ensures |o.model.entities| == |s.entities| + (if msg.MouseLeftClick? && o.result.Ok? then 1 else 0)
    ensures !msg.Tick? ==> s.entities <= o.model.entities
    ensures o.model.fpsFrames == s.fpsFrames + (if msg.Render? then 1 else 0)
    ensures !msg.MouseHoverPos? ==> o.model.hoverPos == s.hoverPos
  {
    match msg
    case Quit => Outcome(Ok(UpdateCommand.Quit), s)
    case Tick => Outcome(Ok(UpdateCommand.None), OnTick(s))
    case Render => OnRender(s, env)
    case MouseLeftClick(row, col) => OnClick(s, row, col, env)
    case MouseHoverPos(row, col) => OnHover(s, row, col, env)
  }

  // ---------------------------------------------------------------------------
  // The model as the source keeps it: one object changed in place
  // ---------------------------------------------------------------------------

  class Model {
    var hoverPos: (U16, U16)
    var entities: seq<Entity>
    var hoverEntity: Entity
    var fpsFrames: nat

    function State(): ModelState
      reads this
    {
      ModelState(hoverPos, entities, hoverEntity, fpsFrames)
    }

    constructor ()
      ensures hoverPos == (0, 0) && entities == [] && fpsFrames == 0
      ensures hoverEntity == BalloonEntity(Balloon(Circle(0.0, 0.0, 1.0, Blue), 0.0))
      ensures State() == Initial()
    {
      hoverPos := (0, 0);
      entities := [];
      fpsFrames := 0;
      hoverEntity := BalloonEntity(Balloon(Circle(0.0, 0.0, 1.0, Blue), 0.0));
    }

    /** Draws the hover entity and then every entity in order, returning the
        primitives handed to the canvas, or `None` when the size query or the
        draw fails.  It changes nothing in the model. */
    method View(env: Env) returns (frame: Option<seq<Shape>>)
      ensures frame.Some? <==> env.height.Some? && env.drawOk
      ensures frame.Some? ==> |frame.value| == |entities| + 1 && frame.value[0] == Drawn(hoverEntity)
      ensures frame.Some? ==> forall i :: 0 <= i < |entities| ==> frame.value[i + 1] == Drawn(entities[i])
    {
      if env.height.None? {
        return Option.None;
      }
      var shapes := [Drawn(hoverEntity)];
      var i := 0;
      while i < |entities|
        invariant 0 <= i <= |entities|
        invariant |shapes| == i + 1 && shapes[0] == Drawn(hoverEntity)
        invariant forall k :: 0 <= k < i ==> shapes[k + 1] == Drawn(entities[k])
      {
        shapes := shapes + [Drawn(entities[i])];
        i := i + 1;
      }
      if !env.drawOk {
        return Option.None;
      }
      frame := Some(shapes);
    }

    /** Handles one message in place and returns the command for the event
        loop, exactly as `Transition` specifies. */
    method Update(msg: Message, env: Env) returns (r: Result<UpdateCommand, UpdateError>)
      modifies this
      ensures Outcome(r, State()) == Transition(old(State()), msg, env)
    {
      match msg
      case Quit =>
        r := Ok(UpdateCommand.Quit);
      case Tick =>
        var i := 0;
        while i < |entities|
          invariant 0 <= i <= |entities| == |old(entities)|
          invariant forall k :: 0 <= k < i ==> entities[k] == Ticked(old(entities)[k])
          invariant forall k :: i <= k < |entities| ==> entities[k] == old(entities)[k]
          invariant hoverPos == old(hoverPos) && hoverEntity == old(hoverEntity) && fpsFrames == old(fpsFrames)
        {
          var ticked := TickEntity(entities[i]);
          entities := entities[i := ticked];
          i := i + 1;
        }
        r := Ok(UpdateCommand.None);
      case Render =>
        fpsFrames := fpsFrames + 1;
        var frame := View(env);
        if frame.None? {
          return Err(RenderFailed);
        }
        r := Ok(UpdateCommand.None);
      case MouseLeftClick(row, col) =>
        var x := col as real;
        if env.height.None? {
          return Err(SizeQueryFailed);
        }
        var y := env.height.value as real - row as real;
        var clickedEntity := hoverEntity;
        entities := entities + [clickedEntity];
        var newEntity: Entity;
        if env.coin {
          newEntity := BalloonEntity(Balloon(Circle(x, y, 1.0, Blue), 0.0));
        } else {
          newEntity := BrickEntity(Brick(Rectangle(x, y, 1.0, 1.0, Red), 0.0));
        }
        hoverEntity := newEntity;
        r := Ok(UpdateCommand.None);
      case MouseHoverPos(row, col) =>
        hoverPos := (row, col);
        match hoverEntity {
          case BalloonEntity(balloon) =>
          var moved := balloon.(circle := balloon.circle.(x := col as real));
          hoverEntity := BalloonEntity(moved);
          if env.height.None? {
            return Err(SizeQueryFailed);
          }
          hoverEntity := BalloonEntity(moved.(circle := moved.circle.(y := env.height.value as real - row as real)));
        case BrickEntity(brick) =>
          var moved := brick.(rectangle := brick.rectangle.(x := col as real));
          hoverEntity := BrickEntity(moved);
          if env.height.None? {
            return Err(SizeQueryFailed);
          }
          hoverEntity := BrickEntity(moved.(rectangle := moved.rectangle.(y := env.height.value as real - row as real)));
        }
        r := Ok(UpdateCommand.None);
    }
  }
}
