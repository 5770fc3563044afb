/**
 * The viewer's keyboard shortcuts: which keys have their default action
 * suppressed and which of the optional callbacks a key press fires.
 */
module KeyboardNavigation {
  datatype Callback = NextPage | PrevPage | ZoomIn | ZoomOut | ToggleDarkMode | ToggleFitWidth | Search | Print

  /** What one key press does: whether the browser's default is suppressed, and the callbacks fired, in order. */
  datatype KeyDispatch = KeyDispatch(preventDefault: bool, fired: seq<Callback>)

  /** The keys whose default action is always suppressed. */
  predicate Reserved(key: string) {
    key == "ArrowRight" || key == "ArrowLeft" || key == "+" || key == "-"
    || key == "d" || key == "f" || key == "p" || key == "/"
  }

  /** `callback` is fired when `cond` holds and the callback was supplied. */
  function FireIf(cond: bool, callback: Callback, provided: set<Callback>): (r: seq<Callback>)
    ensures r == [callback] <==> cond && callback in provided
    ensures r == [] <==> !(cond && callback in provided)
  {
    if cond && callback in provided then [callback] else []
  }

  /**
   * `handleKeyDown`: the suppression test, then the eight independent tests in
   * the listener's order. The dispatch table that results: the default is
   * suppressed exactly for the reserved keys, a key press fires at most one
   * callback, and it fires `c` exactly when the key is `c`'s key, the control
   * key is down if `c` needs it, and `c` was supplied.
   */
  function HandleKeyDown(key: string, ctrlKey: bool, provided: set<Callback>): (d: KeyDispatch)
    ensures d.preventDefault <==> Reserved(key)
    ensures |d.fired| <= 1
    ensures forall c :: c in d.fired <==> key == Binding(c).0 && (ctrlKey || !Binding(c).1) && c in provided
  {
    KeyDispatch(
      Reserved(key),
      FireIf(key == "ArrowRight", NextPage, provided)
      + FireIf(key == "ArrowLeft", PrevPage, provided)
      + FireIf(key == "+", ZoomIn, provided)
      + FireIf(key == "-", ZoomOut, provided)
      + FireIf(key == "d" && ctrlKey, ToggleDarkMode, provided)
      + FireIf(key == "f" && ctrlKey, ToggleFitWidth, provided)
      + FireIf(key == "p" && ctrlKey, Print, provided)
      + FireIf(key == "/", Search, provided))
  }

  /** The key a callback is bound to, and whether it needs the control key. */
  function Binding(c: Callback): (string, bool) {
    match c
    case NextPage => ("ArrowRight", false)
    case PrevPage => ("ArrowLeft", false)
    case ZoomIn => ("+", false)
    case ZoomOut => ("-", false)
    case ToggleDarkMode => ("d", true)
    case ToggleFitWidth => ("f", true)
    case Print => ("p", true)
    case Search => ("/", false)
  }

  /** Every binding is to a reserved key, and no two callbacks share a key. */
  lemma BindingsReservedAndDistinct(c: Callback, e: Callback)
    ensures Reserved(Binding(c).0)
    ensures Binding(c).0 == Binding(e).0 ==> c == e
  {
  }

  /** The suppression does not depend on the modifiers or the callbacks: `d`, `f` and `p` without control are swallowed and fire nothing. */
  lemma SuppressedWithoutAction(key: string, provided: set<Callback>)
    requires key == "d" || key == "f" || key == "p"
    ensures HandleKeyDown(key, false, provided) == KeyDispatch(true, [])
  {
  }

  /** Keys outside the table do nothing at all. */
  lemma OtherKeysIgnored(key: string, ctrlKey: bool, provided: set<Callback>)
    requires !Reserved(key)
    ensures HandleKeyDown(key, ctrlKey, provided) == KeyDispatch(false, [])
  {
  }
}
