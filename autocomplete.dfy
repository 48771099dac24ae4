/** The search box with its suggestion list and keyboard cursor
    (src/components/Autocomplete.tsx). `onSearch` is not called: each
    handler returns the string it would pass to it. */
module AutocompleteModel {
  import opened Types
  import opened Seqs
  import Text

  /** The vocabulary entry contains the input, both lower-cased. */
  predicate SuggestionMatches(input: string, entry: string) {
    Text.Contains(Text.Lower(entry), Text.Lower(input))
  }

  function Matcher(input: string): string -> bool {
    (entry: string) => SuggestionMatches(input, entry)
  }

  /** The suggestion filter of the effect (lines 29-31). */
  function Suggestions(vocabulary: seq<string>, input: string): seq<string> {
    Filter(vocabulary, Matcher(input))
  }

  /** The suggestions are exactly the vocabulary entries containing the
      input case-insensitively, in vocabulary order. */
  lemma SuggestionsSpec(vocabulary: seq<string>, input: string, a: seq<string>, b: seq<string>)
    ensures forall e :: e in Suggestions(vocabulary, input) <==> e in vocabulary && SuggestionMatches(input, e)
    ensures Suggestions(a + b, input) == Suggestions(a, input) + Suggestions(b, input)
    ensures |Suggestions(vocabulary, input)| <= |vocabulary|
  {
    FilterConcat(a, b, Matcher(input));
  }

  /** A vocabulary entry typed in full is among its own suggestions. */
  lemma EntryListsItself(vocabulary: seq<string>, entry: string)
    requires entry in vocabulary
    ensures entry in Suggestions(vocabulary, entry)
  {
    Text.ContainsSelf(Text.Lower(entry));
    SuggestionsSpec(vocabulary, entry, [], []);
  }

  class Autocomplete {
    /** The `suggestions` prop: the specialty vocabulary on the page. */
    const suggestions: seq<string>
    var inputValue: string
    var filteredSuggestions: seq<string>
    var showSuggestions: bool
    var activeSuggestionIndex: int

    /** The cursor is never negative and, over a non-empty list, always on
        an entry; the list holds only vocabulary entries. */
    ghost predicate Valid()
      reads this
    {
      && 0 <= activeSuggestionIndex
      && (filteredSuggestions != [] ==> activeSuggestionIndex < |filteredSuggestions|)
      && (forall e :: e in filteredSuggestions ==> e in suggestions)
    }

    /** The list is drawn (line 125). */
    predicate ListShown()
      reads this
    {
      showSuggestions && |filteredSuggestions| > 0
    }

    /** The cursor lies in [0, max(0, length - 1)]. */
    predicate CursorInRange()
      reads this
    {
      0 <= activeSuggestionIndex <= (if |filteredSuggestions| > 0 then |filteredSuggestions| - 1 else 0)
    }

    /** Whenever the list is drawn, the cursor is on one of its entries. */
    lemma ShownCursorInRange()
      requires Valid()
      ensures ListShown() ==> 0 <= activeSuggestionIndex < |filteredSuggestions|
      ensures filteredSuggestions != [] ==> CursorInRange()
    {
    }

    /** The highlighted entry, as Enter reads it (line 64). */
    function ActiveSuggestion(): (r: string)
      reads this
      requires Valid() && ListShown()
      ensures r in filteredSuggestions && r in suggestions
    {
      filteredSuggestions[activeSuggestionIndex]
    }

    /** The initial state (lines 15-18); the effect's first run on the
        empty input leaves it as it is. */
    constructor (vocabulary: seq<string>)
      ensures Valid()
      ensures suggestions == vocabulary
      ensures inputValue == "" && filteredSuggestions == [] && !showSuggestions && activeSuggestionIndex == 0
    {
      suggestions := vocabulary;
      inputValue := "";
      filteredSuggestions := [];
      showSuggestions := false;
      activeSuggestionIndex := 0;
    }

    /** `handleChange` (lines 56-58). */
    method HandleChange(value: string)
      requires Valid()
      modifies this
      ensures Valid()
      ensures inputValue == value
      ensures filteredSuggestions == old(filteredSuggestions) && showSuggestions == old(showSuggestions)
      ensures activeSuggestionIndex == old(activeSuggestionIndex)
    {
      inputValue := value;
    }

    /** The suggestion effect (lines 22-36), run after a render in which the
        input changed. Blank input empties and hides the list and leaves the
        cursor where it was; any other input shows the matches of the
        untrimmed input and puts the cursor on the first. */
    method FilterEffect()
      requires Valid()
      modifies this
      ensures Valid()
      ensures inputValue == old(inputValue)
      ensures Text.IsBlank(inputValue) ==>
        filteredSuggestions == [] && !showSuggestions && activeSuggestionIndex == old(activeSuggestionIndex)
      ensures !Text.IsBlank(inputValue) ==>
        filteredSuggestions == Suggestions(suggestions, inputValue) && showSuggestions && activeSuggestionIndex == 0
    {
      if Text.IsBlank(inputValue) {
        filteredSuggestions := [];
        showSuggestions := false;
        return;
      }
      var filtered := Suggestions(suggestions, inputValue);
      filteredSuggestions := filtered;
      showSuggestions := true;
      activeSuggestionIndex := 0;
    }

    /** `handleKeyDown` (lines 60-89); the result is the argument passed to
        `onSearch`, if it is called. The list Enter hides stays hidden only
        until the effect runs again (see `EnterAndRerender`). */
    method HandleKeyDown(key: string) returns (searched: Option<string>)
      requires Valid()
      modifies this
      ensures Valid()
      ensures old(CursorInRange()) ==> CursorInRange()
      ensures filteredSuggestions == old(filteredSuggestions)
      ensures key == "Enter" && old(ListShown()) ==>
        && inputValue == old(filteredSuggestions[activeSuggestionIndex])
        && !showSuggestions
        && searched == Some(inputValue)
        && activeSuggestionIndex == old(activeSuggestionIndex)
      ensures key == "Enter" && !old(ListShown()) ==>
        && searched == Some(old(inputValue))
        && inputValue == old(inputValue) && showSuggestions == old(showSuggestions)
        && activeSuggestionIndex == old(activeSuggestionIndex)
      ensures key == "ArrowUp" ==>
        && activeSuggestionIndex == (if old(activeSuggestionIndex) > 0 then old(activeSuggestionIndex) - 1 else old(activeSuggestionIndex))
        && searched == None && inputValue == old(inputValue) && showSuggestions == old(showSuggestions)
      ensures key == "ArrowDown" ==>
        && activeSuggestionIndex == (if old(activeSuggestionIndex) < |filteredSuggestions| - 1 then old(activeSuggestionIndex) + 1 else old(activeSuggestionIndex))
        && searched == None && inputValue == old(inputValue) && showSuggestions == old(showSuggestions)
      ensures key == "Escape" ==>
        && !showSuggestions
        && searched == None && inputValue == old(inputValue) && activeSuggestionIndex == old(activeSuggestionIndex)
      ensures key !in ["Enter", "ArrowUp", "ArrowDown", "Escape"] ==>
        && searched == None && inputValue == old(inputValue) && showSuggestions == old(showSuggestions)
        && activeSuggestionIndex == old(activeSuggestionIndex)
    {
      searched := None;
      if key == "Enter" {
        if showSuggestions && |filteredSuggestions| > 0 {
          var chosen := ActiveSuggestion();
          inputValue := chosen;
          showSuggestions := false;
          searched := Some(chosen);
        } else {
          searched := Some(inputValue);
        }
      } else if key == "ArrowUp" {
        if activeSuggestionIndex > 0 {
          activeSuggestionIndex := activeSuggestionIndex - 1;
        }
      } else if key == "ArrowDown" {
        if activeSuggestionIndex < |filteredSuggestions| - 1 {
          activeSuggestionIndex := activeSuggestionIndex + 1;
        }
      } else if key == "Escape" {
        showSuggestions := false;
      }
    }

    /** `handleSuggestionClick` (lines 91-94): the clicked entry becomes the
        input and is searched for, and the list is hidden. The refocus of
        line 95 and the effect that follow are composed in
        `ClickAndRerender`. */
    method HandleSuggestionClick(suggestion: string) returns (searched: string)
      requires Valid()
      modifies this
      ensures Valid()
      ensures inputValue == suggestion && !showSuggestions && searched == suggestion
      ensures filteredSuggestions == old(filteredSuggestions)
      ensures activeSuggestionIndex == old(activeSuggestionIndex)
    {
      inputValue := suggestion;
      showSuggestions := false;
      searched := suggestion;
    }

    /** Enter on a drawn list, followed by the render it causes: the effect
        runs again only when the chosen entry differs from the typed input
        (its dependency list, line 36). If it does, the list the handler hid
        is shown again, holding the chosen entry, with the cursor on the
        first match; otherwise the list stays hidden. */
    method EnterAndRerender() returns (searched: Option<string>)
      requires Valid() && ListShown()
      modifies this
      ensures Valid()
      ensures inputValue == old(ActiveSuggestion()) && searched == Some(inputValue)
      ensures inputValue == old(inputValue) ==>
        !showSuggestions && filteredSuggestions == old(filteredSuggestions)
        && activeSuggestionIndex == old(activeSuggestionIndex)
      ensures inputValue != old(inputValue) && !Text.IsBlank(inputValue) ==>
        && filteredSuggestions == Suggestions(suggestions, inputValue)
        && inputValue in filteredSuggestions
        && showSuggestions && activeSuggestionIndex == 0
      ensures inputValue != old(inputValue) && Text.IsBlank(inputValue) ==>
        filteredSuggestions == [] && !showSuggestions
        && activeSuggestionIndex == old(activeSuggestionIndex)
    {
      var typed := inputValue;
      searched := HandleKeyDown("Enter");
      if inputValue != typed {
        EntryListsItself(suggestions, inputValue);
        FilterEffect();
      }
    }

    /** A click on a vocabulary entry, followed by the render it causes.
        The handler ends by refocusing the input (line 95), whose focus
        handler, still reading the typed text, shows the list again in the
        same batch of updates. So an entry equal to the typed input leaves the
        old list shown whenever the input is non-empty; any other entry
        reruns the effect, as for `EnterAndRerender`. */
    method ClickAndRerender(suggestion: string) returns (searched: string)
      requires Valid() && suggestion in suggestions
      modifies this
      ensures Valid()
      ensures inputValue == suggestion && searched == suggestion
      ensures suggestion == old(inputValue) ==>
        showSuggestions == (suggestion != "") && filteredSuggestions == old(filteredSuggestions)
        && activeSuggestionIndex == old(activeSuggestionIndex)
      ensures suggestion != old(inputValue) && !Text.IsBlank(suggestion) ==>
        && filteredSuggestions == Suggestions(suggestions, suggestion)
        && suggestion in filteredSuggestions
        && showSuggestions && activeSuggestionIndex == 0
      ensures suggestion != old(inputValue) && Text.IsBlank(suggestion) ==>
        filteredSuggestions == [] && !showSuggestions
        && activeSuggestionIndex == old(activeSuggestionIndex)
    {
      var typed := inputValue;
      searched := HandleSuggestionClick(suggestion);
      HandleFocus(typed);
      if suggestion != typed {
        EntryListsItself(suggestions, suggestion);
        FilterEffect();
      }
    }

    /** `handleSubmit` (lines 98-101): the current input is searched for and
        the list is hidden. */
    method HandleSubmit() returns (searched: string)
      requires Valid()
      modifies this
      ensures Valid()
      ensures searched == old(inputValue) && !showSuggestions
      ensures inputValue == old(inputValue) && filteredSuggestions == old(filteredSuggestions)
      ensures activeSuggestionIndex == old(activeSuggestionIndex)
    {
      searched := inputValue;
      showSuggestions := false;
    }

    /** The input's focus handler (line 112): a non-empty input shows the
        list it already has. The handler reads `rendered`, the input of the
        render that installed it: `inputValue` when the user focuses the
        box, the typed text when a click handler refocuses it. */
    method HandleFocus(rendered: string)
      requires Valid()
      modifies this
      ensures Valid()
      ensures showSuggestions == (old(showSuggestions) || rendered != "")
      ensures inputValue == old(inputValue) && filteredSuggestions == old(filteredSuggestions)
      ensures activeSuggestionIndex == old(activeSuggestionIndex)
    {
      if rendered != "" {
        showSuggestions := true;
      }
    }
  }
}
