/** The editor's application state and the point tool: the state is a record
    of named fields merged by each dispatched action, and a pointer press or
    move on the board draws one cell whose new value depends on the current
    colour. */
module Editor {
  import opened Grids

  /** The values the editor keeps in its state record. */
  datatype Value =
    | Text(text: string)
    | Board(grid: Grid)
    | Number(number: int)
    | Undefined

  /** The state record and the actions dispatched into it: field name to value. */
  type State = map<string, Value>

  const Black := "#000000"
  const Background := "#f0f0f0"

  /** updateState: a new record holding every field of `action`, and every
      field of `state` that `action` does not name. */
  function UpdateState(state: State, action: State): (r: State)
    ensures r.Keys == state.Keys + action.Keys
    ensures forall k :: k in action ==> r[k] == action[k]
    ensures forall k :: k in state && k !in action ==> r[k] == state[k]
  {
    state + action
  }

  /** Dispatching an empty action changes nothing. */
  lemma UpdateStateEmpty(state: State)
    ensures UpdateState(state, map[]) == state
  {
    assert UpdateState(state, map[]).Keys == state.Keys;
  }

  /** Dispatching the same action twice is the same as dispatching it once. */
  lemma UpdateStateIdempotent(state: State, action: State)
    ensures UpdateState(UpdateState(state, action), action) == UpdateState(state, action)
  {
    var once := UpdateState(state, action);
    assert UpdateState(once, action).Keys == once.Keys;
  }

  /** Two actions dispatched in turn act as one action in which the later
      one's fields override the earlier one's. */
  lemma UpdateStateCompose(state: State, a: State, b: State)
    ensures UpdateState(UpdateState(state, a), b) == UpdateState(state, UpdateState(a, b))
  {
    var lhs, rhs := UpdateState(UpdateState(state, a), b), UpdateState(state, UpdateState(a, b));
    assert lhs.Keys == rhs.Keys;
  }

  /** The value the point tool writes: alive exactly when the current colour
      is black; any other colour, or no colour at all, draws a dead cell. */
  function PatchState(state: State): (s: int)
    ensures s == 0 || s == 1
    ensures s == 1 <==> "color" in state && state["color"] == Text(Black)
  {
    if "color" in state && state["color"] == Text(Black) then 1 else 0
  }

  /** The board held in the state, when there is one and it is consistent. */
  predicate HasBoard(state: State) {
    "grid" in state && state["grid"].Board? && Consistent(state["grid"].grid)
  }

  /** drawCell: patch the cell under the pointer with the point tool's value
      and return the action that puts the patched board into the state. */
  method DrawCell(x: int, y: int, state: State) returns (action: State)
    requires HasBoard(state)
    requires InGrid(state["grid"].grid.width, state["grid"].grid.height, x, y)
    ensures action.Keys == {"grid"} && action["grid"].Board?
    ensures var g, n := state["grid"].grid, action["grid"].grid;
      && n.width == g.width && n.height == g.height && Consistent(n)
      && Cell(n, x, y) == PatchState(state)
      && forall x', y' :: InGrid(g.width, g.height, x', y') && (x' != x || y' != y) ==>
           Cell(n, x', y') == Cell(g, x', y')
  {
    var g := state["grid"].grid;
    var drawn := Patch(x, y, PatchState(state));
    var next := Draw(g, [drawn]);
    action := map["grid" := Board(next)];
    FlatInRange(g.width, g.height, x, y);
    forall x', y' | InGrid(g.width, g.height, x', y') && (x' != x || y' != y)
      ensures Cell(next, x', y') == Cell(g, x', y')
    {
      FlatInRange(g.width, g.height, x', y');
      FlatDistinct(g.width, g.height, x, y, x', y');
    }
  }

  /** Dispatching the point tool's action replaces the board and keeps every
      other field, the colour among them, so a later move draws with the same
      value. */
  lemma DrawCellDispatch(state: State, action: State)
    requires HasBoard(state) && action.Keys == {"grid"} && action["grid"].Board?
    ensures var s := UpdateState(state, action);
      && s.Keys == state.Keys
      && s["grid"] == action["grid"]
      && (forall k :: k in state && k != "grid" ==> s[k] == state[k])
      && PatchState(s) == PatchState(state)
  {
    var s := UpdateState(state, action);
    assert "color" !in action;
  }

  /** The eraser button's click: flip whether the eraser is active, and the
      colour to dispatch, background when active and black otherwise. */
  function EraserClick(active: bool): (r: (bool, string))
    ensures r.0 != active
    ensures r.1 == Black || r.1 == Background
    ensures r.1 == Background <==> r.0
  {
    var now := !active;
    (now, if now then Background else Black)
  }

  /** Dispatching the colour an eraser click chooses. */
  function AfterEraserClick(state: State, active: bool): (r: (bool, State))
  {
    var (now, color) := EraserClick(active);
    (now, UpdateState(state, map["color" := Text(color)]))
  }

  /** The drawing value follows the eraser's flag: dead while the eraser is
      active, live otherwise. The editor starts with the eraser off and the
      colour black, so this holds from the start. */
  predicate InStep(state: State, active: bool) {
    PatchState(state) == if active then 0 else 1
  }

  /** The editor's start state, colour black with the eraser off, has the
      drawing value in step with the flag. */
  lemma StartInStep(state: State)
    requires "color" in state && state["color"] == Text(Black)
    ensures InStep(state, false)
  {
  }

  /** After an eraser click the point tool draws dead cells when the eraser
      is active and live cells when it is not, whatever the colour was; only
      the colour changes in the state. */
  lemma EraserClickDrawValue(state: State, active: bool)
    ensures var (now, s) := AfterEraserClick(state, active);
      && now == !active
      && InStep(s, now)
      && s.Keys == state.Keys + {"color"}
      && forall k :: k in state && k != "color" ==> s[k] == state[k]
  {
    var (now, s) := AfterEraserClick(state, active);
    assert Background != Black by { assert Background[1] != Black[1]; }
    assert s["color"] == Text(if now then Background else Black);
  }

  /** Two clicks in turn, each dispatched into the state the previous one
      left, restore the eraser's flag and the drawing value. */
  lemma EraserTwoClicks(state: State, active: bool)
    requires InStep(state, active)
    ensures var (now, s) := AfterEraserClick(state, active);
      var (again, s2) := AfterEraserClick(s, now);
      again == active && PatchState(s2) == PatchState(state)
  {
    var (now, s) := AfterEraserClick(state, active);
    EraserClickDrawValue(state, active);
    EraserClickDrawValue(s, now);
  }
}
