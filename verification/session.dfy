/**
 * The webview script's state and its handlers: the findings it was given,
 * the surviving subset, the file the fix is aimed at, the snippet library,
 * and the parts of the page the handlers write (prompt text area, folder
 * field, dispatch buttons, finding count, facet boxes).
 */
module WebviewSession {
  import opened Options
  import opened Text
  import opened Findings
  import opened Grouping
  import opened Facets
  import opened FacetCounts
  import opened PromptText

  /** The payload `fix` posts to the extension. */
  datatype FixMessage = FixMessage(command: string, prompt: string, file: string, dir: string)

  /** The boxes rendered in the five facet containers. */
  datatype Boxes = Boxes(
    types: seq<Entry>,
    severities: seq<Entry>,
    rules: seq<Entry>,
    dirs: seq<Entry>,
    files: seq<Entry>)

  /** `updateAllFilterCounts`: the boxes of every facet for the findings and the checked values. */
  function AllBoxes(issues: seq<Issue>, sel: Selection): Boxes
    requires WellFormed(issues)
  {
    Boxes(FacetList(issues, sel, Type), FacetList(issues, sel, Severity), FacetList(issues, sel, Rule),
          FacetList(issues, sel, Directory), FacetList(issues, sel, File))
  }

  /** The labels `renderPrompts` shows, one per snippet. */
  function Labels(prompts: seq<string>): seq<string> {
    seq(|prompts|, k requires 0 <= k < |prompts| => PromptLabel(prompts[k]))
  }

  /**
   * The text `filter()` writes into the prompt area: the `reduce` that
   * groups the subset by component, then the file block of each entry of
   * the dictionary, in key order, and the closing instruction.
   */
  method RenderPrompt(subset: seq<Issue>) returns (text: string)
    ensures text == WebviewPrompt(subset)
  {
    var keys, groups := GroupByComponent(subset);
    text := "";
    for j := 0 to |keys|
      invariant text == RenderFiles(keys[..j], subset)
    {
      GroupEntry(subset, keys[j]);
      RenderFilesNext(keys, j, subset);
      text := text + FileBlock(keys[j], groups[keys[j]]);
    }
    assert keys[..|keys|] == keys;
    text := text + Suffix;
  }

  class Session {
    /** `issues`: every finding the page was given. */
    var issues: seq<Issue>
    /** `filteredIssues`: the findings that pass every facet. */
    var filtered: seq<Issue>
    /** `currentFile`: the component a fix is aimed at. */
    var currentFile: string
    /** `prompts`: the snippet library. */
    var prompts: seq<string>
    /** The labels of the snippet list. */
    var labels: seq<string>
    /** The checked boxes of the five facet containers. */
    var selection: Selection
    /** The prompt text area. */
    var promptText: string
    /** The folder field. */
    var dir: string
    /** Both dispatch buttons are disabled. */
    var buttonsDisabled: bool
    /** The finding count shown on the page. */
    var issueCount: nat

    /**
     * What holds once the page has been filtered: the subset, the count, the
     * buttons and `currentFile` agree with the findings and the checked
     * boxes, and the labels with the library.
     */
    ghost predicate Valid()
      reads this
    {
      WellFormed(issues) &&
      filtered == Filtered(issues, selection) &&
      issueCount == |filtered| &&
      buttonsDisabled == (|filtered| == 0) &&
      (filtered != [] ==> currentFile == filtered[0].component) &&
      labels == Labels(prompts)
    }

    /**
     * The boxes `updateAllFilterCounts` renders, which `filter()` refreshes:
     * they depend on nothing but the findings and the checked values.
     */
    function ShownBoxes(): Boxes
      reads this
      requires WellFormed(issues)
    {
      AllBoxes(issues, selection)
    }

    /** The script's top-level `let`s on a page with empty fields. */
    constructor ()
      ensures Valid()
      ensures issues == [] && filtered == [] && currentFile == "" && prompts == []
      ensures selection == NoSelection && promptText == "" && dir == ""
    {
      issues, filtered, currentFile, prompts, labels := [], [], "", [], [];
      selection := NoSelection;
      promptText, dir := "", "";
      buttonsDisabled, issueCount := true, 0;
      NoSelectionKeepsAll([]);
    }

    /** `loadPrompts`: the defaults followed by the custom snippets, a missing list counting as empty. */
    method LoadPrompts(defaults: Option<seq<string>>, customs: Option<seq<string>>)
      requires Valid()
      modifies this
      ensures Valid()
      ensures prompts == defaults.GetOr([]) + customs.GetOr([])
      ensures labels == Labels(prompts)
      ensures issues == old(issues) && filtered == old(filtered) && currentFile == old(currentFile)
      ensures selection == old(selection) && promptText == old(promptText) && dir == old(dir)
    {
      prompts := defaults.GetOr([]) + customs.GetOr([]);
      labels := Labels(prompts);
    }

    /** `insertPrompt`: appends the snippet at `index` when there is one and it is not empty. */
    method InsertPrompt(index: int)
      requires Valid()
      modifies this
      ensures Valid()
      ensures 0 <= index < |prompts| && prompts[index] != "" ==> promptText == old(promptText) + prompts[index]
      ensures !(0 <= index < |prompts| && prompts[index] != "") ==> promptText == old(promptText)
      ensures issues == old(issues) && filtered == old(filtered) && currentFile == old(currentFile)
      ensures prompts == old(prompts) && selection == old(selection) && dir == old(dir)
    {
      if 0 <= index < |prompts| && prompts[index] != "" {
        promptText := promptText + prompts[index];
      }
    }

    /**
     * `saveCustomPrompt` for the input field's text: the snippet posted to
     * the extension, if any, and the field's new text (cleared only when a
     * snippet is posted).
     */
    method SaveCustomPrompt(input: string) returns (posted: Option<string>, inputAfter: string)
      ensures posted == SavedPrompt(input)
      ensures posted.None? <==> forall k :: 0 <= k < |input| ==> IsJsSpace(input[k])
      ensures inputAfter == if posted.Some? then "" else input
    {
      var text := Trim(input);
      if text != "" {
        posted, inputAfter := Some("\n" + text), "";
      } else {
        posted, inputAfter := None, input;
      }
      SavedPromptSpec(input);
    }

    /**
     * `filter()`: recomputes the subset (and with it the boxes), rebuilds
     * the prompt text from the subset grouped by file, sets the buttons and
     * the count, and aims at the first survivor's file when there is one.
     */
    method Filter()
      requires WellFormed(issues) && labels == Labels(prompts)
      modifies this
      ensures Valid()
      ensures promptText == WebviewPrompt(filtered)
      ensures filtered == [] ==> currentFile == old(currentFile)
      ensures issues == old(issues) && prompts == old(prompts) && selection == old(selection) && dir == old(dir)
    {
      var subset := Filtered(issues, selection);
      var text := RenderPrompt(subset);
      var file := if |subset| > 0 then subset[0].component else currentFile;
      filtered, promptText, buttonsDisabled, issueCount, currentFile := subset, text, |subset| == 0, |subset|, file;
    }

    /** `initializeUI`: takes the findings and the folder, loads the library and filters. */
    method Initialize(data: seq<Issue>, workspace: string, defaults: Option<seq<string>>, customs: Option<seq<string>>)
      requires WellFormed(data)
      modifies this
      ensures Valid()
      ensures issues == data && dir == workspace
      ensures prompts == defaults.GetOr([]) + customs.GetOr([])
      ensures filtered == Filtered(data, selection) && selection == old(selection)
      ensures promptText == WebviewPrompt(filtered)
      ensures filtered == [] ==> currentFile == old(currentFile)
    {
      issues := data;
      filtered := issues;
      dir := workspace;
      prompts := defaults.GetOr([]) + customs.GetOr([]);
      labels := Labels(prompts);
      Filter();
    }

    /** Checking or unchecking the box of `v` in facet `f`; its `onchange` runs `filter()`. */
    method SetChecked(f: Facet, v: string, checked: bool)
      requires Valid()
      modifies this
      ensures Valid()
      ensures Selected(selection, f) == if checked then Selected(old(selection), f) + {v} else Selected(old(selection), f) - {v}
      ensures forall g :: g != f ==> Selected(selection, g) == Selected(old(selection), g)
      ensures promptText == WebviewPrompt(filtered)
      ensures filtered == [] ==> currentFile == old(currentFile)
      ensures issues == old(issues) && prompts == old(prompts) && dir == old(dir)
    {
      var s := if checked then Selected(selection, f) + {v} else Selected(selection, f) - {v};
      selection := match f
        case Type => selection.(types := s)
        case Severity => selection.(severities := s)
        case Rule => selection.(rules := s)
        case Directory => selection.(dirs := s)
        case File => selection.(files := s);
      Filter();
    }

    /** `removeFilter`: unchecks every box of facet `f` and filters. */
    method RemoveFilter(f: Facet)
      requires Valid()
      modifies this
      ensures Valid()
      ensures selection == Without(old(selection), f)
      ensures promptText == WebviewPrompt(filtered)
      ensures filtered == [] ==> currentFile == old(currentFile)
      ensures issues == old(issues) && prompts == old(prompts) && dir == old(dir)
    {
      selection := Without(selection, f);
      Filter();
    }

    /**
     * `fix(agent)`: nothing when no finding survives; otherwise the prompt
     * text, the path after the first colon of `currentFile`, and the folder,
     * sent as `fixWithCursor` exactly when the agent is `cursor`.
     */
    method Fix(agent: string) returns (msg: Option<FixMessage>)
      ensures msg.None? <==> filtered == []
      ensures msg.Some? ==>
        msg.value.command == (if agent == "cursor" then "fixWithCursor" else "fixWithCopilot") &&
        msg.value.prompt == promptText && msg.value.file == PathAfterFirstColon(currentFile) &&
        msg.value.dir == dir
    {
      if |filtered| == 0 {
        return None;
      }
      var filePath := PathAfterFirstColon(currentFile);
      msg := Some(FixMessage(if agent == "cursor" then "fixWithCursor" else "fixWithCopilot", promptText, filePath, dir));
    }
  }
}
