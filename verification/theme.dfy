/** The light/dark theme toggle shared by the home page and the blog pages:
    the `data-theme` attribute of the document, the button label, and the
    choice saved in local storage. */
module Theme {
  import opened Wrappers

  /** The attribute or a stored value, `None` when absent. A present but
      empty value is falsy in the source and treated as absent. */
  predicate Given(v: Option<string>) {
    v.Some? && v.value != ""
  }

  /** `getAttribute('data-theme') || 'dark'`. */
  function Current(attr: Option<string>): (r: string)
    ensures r != ""
    ensures Given(attr) ==> r == attr.value
    ensures !Given(attr) ==> r == "dark"
  {
    if Given(attr) then attr.value else "dark"
  }

  /** The button names the theme a click switches to. */
  function Label(attr: Option<string>): (r: string)
    ensures r == "[light]" <==> Current(attr) == "dark"
    ensures r == "[dark]" <==> Current(attr) != "dark"
  {
    if Current(attr) == "dark" then "[light]" else "[dark]"
  }

  /** The attribute after page load: a saved choice replaces the one the
      page was written with. */
  function Init(attr: Option<string>, saved: Option<string>): (r: Option<string>)
    ensures Given(saved) ==> Current(r) == saved.value
    ensures !Given(saved) ==> r == attr
  {
    if Given(saved) then saved else attr
  }

  /** The page state after a click: the attribute, the stored choice and
      the button label. */
  datatype Toggled = Toggled(attr: Option<string>, stored: string, button: string)

  function Click(attr: Option<string>): (r: Toggled)
    ensures r.attr == Some(r.stored) && r.button == Label(r.attr)
    ensures Current(r.attr) == "light" <==> Current(attr) == "dark"
    ensures Current(r.attr) in {"light", "dark"}
  {
    var next := if Current(attr) == "dark" then "light" else "dark";
    Toggled(Some(next), next, Label(Some(next)))
  }

  /** Two clicks give back the theme, for the two themes the site has. */
  lemma ClickTwice(attr: Option<string>)
    requires Current(attr) in {"light", "dark"}
    ensures Current(Click(Click(attr).attr).attr) == Current(attr)
  {
  }

  /** Any theme name other than `dark`, known or not, is left for `dark`. */
  lemma ClickFromOther(attr: Option<string>)
    requires Current(attr) != "dark"
    ensures Click(attr).stored == "dark" && Click(attr).button == "[light]"
  {
  }

  /** A reload picks up the choice the last click saved. */
  lemma ReloadKeeps(page: Option<string>, attr: Option<string>)
    ensures Current(Init(page, Some(Click(attr).stored))) == Current(Click(attr).attr)
  {
  }

  /** The pages are written with `data-theme="dark"`; with nothing saved the
      first click switches to light. */
  lemma FirstClick(saved: Option<string>)
    requires !Given(saved)
    ensures Label(Init(Some("dark"), saved)) == "[light]"
    ensures Click(Init(Some("dark"), saved)).stored == "light"
  {
  }
}
