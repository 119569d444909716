/**
 * Comments under a post: the guard that keeps blank comments from being sent, and the
 * show/hide toggle of a comments section that fetches the comments the first time the
 * section is opened. The `data-loaded` attribute is the section's memory of that.
 */
module CommentsJs {
  import opened Wrappers
  import opened Strings
  import MainJs

  /** `submitComment`: the trimmed text to send, or None (an error toast) when it is blank. */
  function CommentToSend(raw: string): (content: Option<string>)
    ensures content.None? <==> AllSpace(raw, JsIsSpace)
    ensures content.Some? ==> content.value == Strip(raw, JsIsSpace) && content.value != ""
    ensures content.Some? ==> !JsIsSpace(content.value[0]) && !JsIsSpace(content.value[|content.value| - 1])
  {
    StripEmptyIffAllSpace(raw, JsIsSpace);
    StripShape(raw, JsIsSpace);
    var t := Strip(raw, JsIsSpace);
    if t == "" then None else Some(t)
  }

  /** The state `toggleComments` reads and writes: `style.display` and `dataset.loaded`. */
  datatype Section = Section(display: string, loaded: Option<string>)

  /** One toggle: the new state, and whether `loadComments` is called. */
  function ToggleStep(s: Section): (r: (Section, bool))
    ensures r.0.display == MainJs.FlipDisplay(s.display)
    ensures r.1 <==> s.display == "none" && s.loaded != Some("true")
    ensures r.0.loaded == if r.1 then Some("true") else s.loaded
  {
    var isHidden := s.display == "none";
    var shown := if isHidden then "block" else "none";
    if isHidden && s.loaded != Some("true") then (Section(shown, Some("true")), true)
    else (Section(shown, s.loaded), false)
  }

  /** The number of loads in k toggles from s, and the state they end in. */
  function Toggles(s: Section, k: nat): (r: (Section, nat))
    decreases k
  {
    if k == 0 then (s, 0)
    else
      var (s1, loads) := Toggles(s, k - 1);
      var (s2, load) := ToggleStep(s1);
      (s2, loads + if load then 1 else 0)
  }

  /** Once the section is marked loaded it stays marked, and no later toggle loads again. */
  lemma {:induction false} LoadedStaysLoaded(s: Section, k: nat)
    requires s.loaded == Some("true")
    ensures Toggles(s, k).0.loaded == Some("true") && Toggles(s, k).1 == 0
  {
    if k > 0 {
      LoadedStaysLoaded(s, k - 1);
    }
  }

  /** However often a section is toggled, its comments are fetched at most once. */
  lemma {:induction false} LoadsAtMostOnce(s: Section, k: nat)
    ensures Toggles(s, k).1 <= 1
    ensures Toggles(s, k).1 == 1 ==> Toggles(s, k).0.loaded == Some("true")
  {
    if k > 0 {
      LoadsAtMostOnce(s, k - 1);
    }
  }

  /** The first opening of a hidden, unloaded section fetches; closing never does. */
  lemma FirstOpenLoads(loaded: Option<string>, display: string)
    requires loaded != Some("true")
    ensures ToggleStep(Section("none", loaded)).1
    ensures display != "none" ==> !ToggleStep(Section(display, loaded)).1
  {
  }

  /** A post's `#comments-section-<id>` element. */
  class CommentsSection {
    var display: string
    var loaded: Option<string>

    constructor (display: string, loaded: Option<string>)
      ensures this.display == display && this.loaded == loaded
    {
      this.display, this.loaded := display, loaded;
    }

    /** `toggleComments` of the comments script; load tells whether comments are fetched. */
    method Toggle() returns (load: bool)
      modifies this
      ensures (Section(display, loaded), load) == ToggleStep(Section(old(display), old(loaded)))
    {
      var isHidden := display == "none";
      display := if isHidden then "block" else "none";
      load := false;
      if isHidden && loaded != Some("true") {
        load := true;
        loaded := Some("true");
      }
    }
  }
}
