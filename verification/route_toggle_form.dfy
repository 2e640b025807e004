/**
 * The settings form that chooses the visible tabs: one checkbox per known route, toggled
 * locally and saved with the update action.
 */
module RouteToggleForm {
  import opened Wrappers
  import opened Db
  import Sorting
  import Settings

  /** `prev.includes(route) ? prev.filter(r => r !== route) : [...prev, route]`. */
  function Toggled(prev: seq<string>, route: string): seq<string> {
    if route in prev then Sorting.Filter(prev, r => r != route) else prev + [route]
  }

  /** A toggle flips whether the route is chosen and leaves every other route as it was. */
  lemma ToggleFlips(prev: seq<string>, route: string)
    ensures route in Toggled(prev, route) <==> route !in prev
    ensures forall x :: x != route ==> (x in Toggled(prev, route) <==> x in prev)
  {
  }

  /**
   * Unticking a route removes every copy of it and keeps the other routes in order;
   * ticking appends it. So ticking then unticking restores the list, while unticking
   * then ticking moves the route to the end.
   */
  lemma ToggleTwice(prev: seq<string>, route: string)
    ensures route !in prev ==> Toggled(Toggled(prev, route), route) == prev
    ensures route in prev ==> Toggled(Toggled(prev, route), route) == Sorting.Filter(prev, r => r != route) + [route]
  {
    var p := r => r != route;
    if route !in prev {
      Sorting.FilterConcat(prev, [route], p);
      assert Sorting.Filter([route], p) == [] by {
        assert [route][1..] == [];
      }
      forall x | x in prev ensures p(x) {
      }
      Sorting.FilterAll(prev, p);
    }
  }

  /** Starting from known routes, toggles of the form's checkboxes never produce a list the update action rejects. */
  lemma TogglesPassRouteCheck(prev: seq<string>, route: string)
    requires forall x :: x in prev ==> x in Settings.KnownRoutes
    requires route in Settings.KnownRoutes
    ensures Settings.InvalidRoutes(Toggled(prev, route)) == []
  {
    Settings.RouteCheckExact(Toggled(prev, route));
  }

  class Form {
    var selected: seq<string>
    var error: Option<string>
    var pending: bool

    /** The form starts from the routes the page read. */
    constructor (initialRoutes: seq<string>)
      ensures selected == initialRoutes && error.None? && !pending
    {
      selected, error, pending := initialRoutes, None, false;
    }

    predicate Checked(route: string)
      reads this
    {
      route in selected
    }

    /** A checkbox change; the checkboxes are disabled while a save is pending, so then nothing changes. */
    method Toggle(route: string)
      modifies this
      ensures !old(pending) ==> selected == Toggled(old(selected), route) && (Checked(route) <==> !old(route in selected))
      ensures old(pending) ==> selected == old(selected)
      ensures error == old(error) && pending == old(pending)
    {
      if !pending {
        selected := Toggled(selected, route);
        ToggleFlips(old(selected), route);
      }
    }

    /** Submitting clears the error, marks the form pending, and sends the chosen routes. */
    method BeginSubmit() returns (routes: seq<string>)
      modifies this
      ensures routes == selected == old(selected)
      ensures error.None? && pending
    {
      error := None;
      pending := true;
      routes := selected;
    }

    /** The update action answered: success shows the `"Settings saved"` toast, failure shows its error under the form. */
    method FinishSubmit(result: ActionResult) returns (toast: Option<string>)
      modifies this
      ensures !pending && selected == old(selected)
      ensures result.Succeeded? ==> toast == Some("Settings saved") && error == old(error)
      ensures result.Failed? ==> toast.None? && error == Some(result.error)
    {
      pending := false;
      if result.Succeeded? {
        toast := Some("Settings saved");
      } else {
        error := Some(result.error);
        toast := None;
      }
    }
  }
}
