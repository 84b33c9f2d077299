/**
 * The mode controller of src/mode.rs: a handler per mode turns a key into a list of operations,
 * and a `Controller` sends each key to the handler of its current mode. This revision has its
 * own `Mode` and its own operations, distinct from those of `PaperMode`.
 */
module ModeController {
  import opened Wrappers
  import opened Keys

  datatype Mode = Display | Command | Filter | Action | Edit

  /** `Mode::default`. */
  const DefaultMode: Mode := Display

  datatype Edge = Start | End

  /** The operations a handler asks for; what each one does lies outside this module. */
  datatype Operation =
    | AddToSketch(text: string)
    | UpdateView(c: char)
    | SetMarks(edge: Edge)
    | DrawSketch
    | IdentifyNoise
    | ExecuteCommand
    | ScrollDown
    | ScrollUp
    | ChangeMode(mode: Mode)

  /** The mode changes the handlers can ask for. */
  predicate Legal(from: Mode, to: Mode) {
    match from
    case Display => to == Command || to == Filter
    case Command => to == Display
    case Filter => to == Action || to == Display
    case Action => to == Edit || to == Display
    case Edit => to == Display
  }

  /** Every mode change in `ops` leaves `from` along the mode graph. */
  predicate FollowsGraph(from: Mode, ops: seq<Operation>) {
    forall j :: 0 <= j < |ops| && ops[j].ChangeMode? ==> Legal(from, ops[j].mode)
  }

  /** Every change of the sketch in `ops` is immediately followed by drawing the sketch. */
  predicate SketchRedrawn(ops: seq<Operation>) {
    forall j :: 0 <= j < |ops| && ops[j].AddToSketch? ==> j + 1 < |ops| && ops[j + 1] == DrawSketch
  }

  /** `DisplayMode::process_input`. */
  function DisplayInput(input: char): (ops: seq<Operation>)
    ensures FollowsGraph(Display, ops) && SketchRedrawn(ops)
    ensures input == '.' ==> ops == [ChangeMode(Command)]
    ensures input in {'#', '/'} ==> ops == [ChangeMode(Filter), AddToSketch([input]), DrawSketch]
    ensures input == 'j' ==> ops == [ScrollDown]
    ensures input == 'k' ==> ops == [ScrollUp]
    ensures ops == [] <==> input !in {'.', '#', '/', 'j', 'k'}
  {
    match input
    case '.' => [ChangeMode(Command)]
    case '#' => [ChangeMode(Filter), AddToSketch([input]), DrawSketch]
    case '/' => [ChangeMode(Filter), AddToSketch([input]), DrawSketch]
    case 'j' => [ScrollDown]
    case 'k' => [ScrollUp]
    case _ => []
  }

  /** `CommandMode::process_input`: ENTER executes the command before returning to Display. */
  function CommandInput(input: char): (ops: seq<Operation>)
    ensures FollowsGraph(Command, ops) && SketchRedrawn(ops)
    ensures input == ENTER ==> ops == [ExecuteCommand, ChangeMode(Display)]
    ensures input == ESC ==> ops == [ChangeMode(Display)]
    ensures input !in {ENTER, ESC} ==> ops == [AddToSketch([input]), DrawSketch]
  {
    if input == ENTER then [ExecuteCommand, ChangeMode(Display)]
    else if input == ESC then [ChangeMode(Display)]
    else [AddToSketch([input]), DrawSketch]
  }

  /** `FilterMode::process_input`: a tab joins filters with `&&`. */
  function FilterInput(input: char): (ops: seq<Operation>)
    ensures FollowsGraph(Filter, ops) && SketchRedrawn(ops)
    ensures input == ENTER ==> ops == [ChangeMode(Action)]
    ensures input == '\t' ==> ops == [IdentifyNoise, AddToSketch("&&"), DrawSketch]
    ensures input == ESC ==> ops == [ChangeMode(Display)]
    ensures input !in {ENTER, '\t', ESC} ==> ops == [AddToSketch([input]), DrawSketch]
  {
    if input == ENTER then [ChangeMode(Action)]
    else if input == '\t' then [IdentifyNoise, AddToSketch("&&"), DrawSketch]
    else if input == ESC then [ChangeMode(Display)]
    else [AddToSketch([input]), DrawSketch]
  }

  /** `ActionMode::process_input`: the marks are set before Edit mode begins. */
  function ActionInput(input: char): (ops: seq<Operation>)
    ensures FollowsGraph(Action, ops)
    ensures input == ESC ==> ops == [ChangeMode(Display)]
    ensures input == 'i' ==> ops == [SetMarks(Start), ChangeMode(Edit)]
    ensures input == 'I' ==> ops == [SetMarks(End), ChangeMode(Edit)]
    ensures ops == [] <==> input !in {ESC, 'i', 'I'}
  {
    if input == ESC then [ChangeMode(Display)]
    else if input == 'i' then [SetMarks(Start), ChangeMode(Edit)]
    else if input == 'I' then [SetMarks(End), ChangeMode(Edit)]
    else []
  }

  /** `EditMode::process_input`: a key goes both to the sketch and to the view. */
  function EditInput(input: char): (ops: seq<Operation>)
    ensures FollowsGraph(Edit, ops)
    ensures input == ESC ==> ops == [ChangeMode(Display)]
    ensures input != ESC ==> ops == [AddToSketch([input]), UpdateView(input)]
  {
    if input == ESC then [ChangeMode(Display)]
    else [AddToSketch([input]), UpdateView(input)]
  }

  /** The five handlers of the controller. */
  datatype Handler = DisplayMode | CommandMode | FilterMode | ActionMode | EditMode

  /** `ModeHandler::process_input`, dispatched on the handler. */
  function HandlerInput(handler: Handler, input: char): seq<Operation> {
    match handler
    case DisplayMode => DisplayInput(input)
    case CommandMode => CommandInput(input)
    case FilterMode => FilterInput(input)
    case ActionMode => ActionInput(input)
    case EditMode => EditInput(input)
  }

  /** The handler meant for each mode. */
  function HandlerFor(mode: Mode): (h: Handler)
    ensures forall input: char :: FollowsGraph(mode, HandlerInput(h, input))
  {
    match mode
    case Display => DisplayMode
    case Command => CommandMode
    case Filter => FilterMode
    case Action => ActionMode
    case Edit => EditMode
  }

  /** Whatever the mode and key, the handler leaves the mode only along the mode graph. */
  lemma HandlersFollowGraph(mode: Mode, input: char)
    ensures FollowsGraph(mode, HandlerInput(HandlerFor(mode), input))
  {
  }

  /**
   * ESC in any mode but Display asks for exactly one change, back to Display; in Display it
   * asks for nothing.
   */
  lemma EscapeReturnsToDisplay(mode: Mode)
    ensures mode != Display ==> HandlerInput(HandlerFor(mode), ESC) == [ChangeMode(Display)]
    ensures mode == Display ==> HandlerInput(HandlerFor(mode), ESC) == []
  {
  }

  /**
   * A key that reaches the sketch is that key itself, except for the tab of Filter mode; outside
   * Edit mode the sketch is drawn right after it changes, and in Edit mode the view gets the key.
   */
  lemma SketchFollowsKey(mode: Mode, input: char)
    ensures var ops := HandlerInput(HandlerFor(mode), input);
      forall j :: 0 <= j < |ops| && ops[j].AddToSketch? ==>
        ops[j].text == (if mode == Filter && input == '\t' then "&&" else [input]) &&
        j + 1 < |ops| && ops[j + 1] == (if mode == Edit then UpdateView(input) else DrawSketch)
  {
  }

  /** A section of the document picked out by a filter; its contents are not modelled. */
  datatype Enhancement<S> = FilterSections(sections: seq<S>)

  /**
   * A filter: the character that selects it and its extraction, which turns a feature and the
   * current sections into new ones by reading the view.
   */
  datatype Filter<!S, !V> = Extractor(id: char, extract: (string, seq<S>, V) -> seq<S>)

  /** The position of the first filter at or after `i` whose id is `id`. */
  function FirstFilterFrom<S, V>(filters: seq<Filter<S, V>>, id: char, i: nat): (j: Option<nat>)
    requires i <= |filters|
    ensures j.None? <==> forall k :: i <= k < |filters| ==> filters[k].id != id
    ensures j.Some? ==> i <= j.value < |filters| && filters[j.value].id == id
    ensures j.Some? ==> forall k :: i <= k < j.value ==> filters[k].id != id
    decreases |filters| - i
  {
    if i == |filters| then None
    else if filters[i].id == id then Some(i)
    else FirstFilterFrom(filters, id, i + 1)
  }

  /**
   * The sections Filter mode reports: the noises, except that the first filter whose id is the
   * first character of the last feature extracts from them.
   */
  function FilteredSections<S, V>(noises: seq<S>, lastFeature: Option<string>, filters: seq<Filter<S, V>>, view: V): (sections: seq<S>)
    ensures sections != noises ==>
      lastFeature.Some? && lastFeature.value != [] &&
      exists k :: 0 <= k < |filters| && filters[k].id == lastFeature.value[0]
  {
    if lastFeature.None? || lastFeature.value == [] then noises
    else
      match FirstFilterFrom(filters, lastFeature.value[0], 0)
      case None => noises
      case Some(j) => filters[j].extract(lastFeature.value, noises, view)
  }

  /** `Controller`: the current mode and the handler of every mode. */
  class Controller {
    var mode: Mode
    const display: Handler
    const command: Handler
    const filter: Handler
    const action: Handler
    const edit: Handler

    /** Each mode's field holds that mode's handler. */
    predicate Valid()
      reads this
    {
      display == DisplayMode && command == CommandMode && filter == FilterMode &&
      action == ActionMode && edit == EditMode
    }

    /** `Controller::default`: Display mode. */
    constructor ()
      ensures Valid() && mode == DefaultMode
    {
      mode := DefaultMode;
      display := DisplayMode;
      command := CommandMode;
      filter := FilterMode;
      action := ActionMode;
      edit := EditMode;
    }

    /** `Controller::mode`: the handler field selected by the current mode. */
    function SelectedHandler(): (h: Handler)
      reads this
      requires Valid()
      ensures h == HandlerFor(mode)
    {
      match mode
      case Display => display
      case Command => command
      case Filter => filter
      case Action => action
      case Edit => edit
    }

    /**
     * `Controller::process_input`: the operations of the current mode's handler, which leave
     * the mode only along the mode graph.
     */
    function ProcessInput(input: char): (ops: seq<Operation>)
      reads this
      requires Valid()
      ensures ops == HandlerInput(HandlerFor(mode), input)
      ensures FollowsGraph(mode, ops)
      ensures mode != Display && input == ESC ==> ops == [ChangeMode(Display)]
    {
      HandlersFollowGraph(mode, input);
      EscapeReturnsToDisplay(mode);
      HandlerInput(SelectedHandler(), input)
    }

    /** `Controller::set_mode`: only the mode changes. */
    method SetMode(m: Mode)
      modifies this
      ensures mode == m
    {
      mode := m;
    }

    /**
     * `Controller::enhance`: nothing outside Filter mode; in Filter mode the noises after at
     * most one filter, the first whose id matches the last feature.
     */
    method Enhance<S, V>(noises: seq<S>, lastFeature: Option<string>, filters: seq<Filter<S, V>>, view: V)
      returns (r: Option<Enhancement<S>>)
      requires Valid()
      ensures mode != Filter ==> r == None
      ensures mode == Filter ==> r == Some(FilterSections(FilteredSections(noises, lastFeature, filters, view)))
    {
      if SelectedHandler() != FilterMode {
        return None;
      }
      var sections := noises;
      if lastFeature.Some? && lastFeature.value != [] {
        var feature := lastFeature.value;
        var id := feature[0];
        var i := 0;
        while i < |filters|
          invariant 0 <= i <= |filters|
          invariant FirstFilterFrom(filters, id, 0) == FirstFilterFrom(filters, id, i)
          invariant sections == noises
        {
          if id == filters[i].id {
            sections := filters[i].extract(feature, sections, view);
            break;
          }
          i := i + 1;
        }
      }
      r := Some(FilterSections(sections));
    }
  }

  /** Without a feature, or without a filter for it, Filter mode reports the noises unchanged. */
  lemma UnmatchedFeatureKeepsNoises<S, V>(noises: seq<S>, feature: string, filters: seq<Filter<S, V>>, view: V)
    requires feature == [] || forall k :: 0 <= k < |filters| ==> filters[k].id != feature[0]
    ensures FilteredSections(noises, Some(feature), filters, view) == noises
    ensures FilteredSections(noises, None, filters, view) == noises
  {
  }

  /** Only the first matching filter extracts: filters after it make no difference. */
  lemma FirstFilterWins<S, V>(noises: seq<S>, feature: string, filters: seq<Filter<S, V>>, more: seq<Filter<S, V>>, view: V)
    requires feature != [] && exists k :: 0 <= k < |filters| && filters[k].id == feature[0]
    ensures FilteredSections(noises, Some(feature), filters + more, view) ==
      FilteredSections(noises, Some(feature), filters, view)
  {
    var id := feature[0];
    var j := FirstFilterFrom(filters, id, 0).value;
    var all := filters + more;
    assert all[j] == filters[j];
    assert FirstFilterFrom(all, id, 0) == Some(j) by {
      FirstFilterOfPrefix(filters, more, id, 0, j);
    }
  }

  /** The first filter with a given id is found in any extension of a prefix that holds it. */
  lemma {:induction false} FirstFilterOfPrefix<S, V>(filters: seq<Filter<S, V>>, more: seq<Filter<S, V>>, id: char, i: nat, j: nat)
    requires i <= j < |filters| && FirstFilterFrom(filters, id, i) == Some(j)
    ensures FirstFilterFrom(filters + more, id, i) == Some(j)
    decreases j - i
  {
    var all := filters + more;
    assert all[i] == filters[i];
    if i < j {
      FirstFilterOfPrefix(filters, more, id, i + 1, j);
    }
  }
}
