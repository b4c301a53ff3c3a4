/**
 * The TagPicker component's state and its event handlers. Each handler is one
 * atomic transition of the component's state.
 */
module Picker {
  import opened Wrappers
  import opened Text
  import opened Tags
  import opened Highlight
  import opened Grouping

  class TagPicker {
    /** The tag pool; the component never replaces it. */
    const tags: seq<Tag>
    var selectedTags: seq<Tag>
    var filteredTags: seq<Tag>
    var searchTerm: string
    var isDropdownOpen: bool
    var highlightedIndex: Option<int>

    /**
     * The list shown is always the pool filtered by the search term shown,
     * and the selection holds tags of the pool with distinct identifiers.
     * The highlight is not constrained: a search does not reset it.
     */
    ghost predicate Valid()
      reads this
    {
      && filteredTags == FilterTags(tags, searchTerm)
      && UniqueIds(selectedTags)
      && (forall i :: 0 <= i < |selectedTags| ==> selectedTags[i] in tags)
    }

    /** Mounting: nothing selected, the whole pool listed, empty search, dropdown closed, no highlight. */
    constructor (pool: seq<Tag>)
      ensures Valid()
      ensures tags == pool && selectedTags == [] && filteredTags == pool
      ensures searchTerm == "" && !isDropdownOpen && highlightedIndex == None
    {
      tags := pool;
      selectedTags := [];
      filteredTags := pool;
      searchTerm := "";
      isDropdownOpen := false;
      highlightedIndex := None;
      FilterEmptyQuery(pool);
      assert Lower("") == "";
    }

    /** Typing in the input: store the lower-cased text, filter the pool by it and open the dropdown. */
    method HandleSearch(value: string)
      requires Valid()
      modifies this
      ensures Valid()
      ensures searchTerm == Lower(value) && filteredTags == FilterTags(tags, Lower(value)) && isDropdownOpen
      ensures selectedTags == old(selectedTags) && highlightedIndex == old(highlightedIndex)
    {
      var query := Lower(value);
      searchTerm := query;
      filteredTags := FilterTags(tags, query);
      isDropdownOpen := true;
    }

    /** Choosing a listed tag: append it unless its id is already selected; close the dropdown either way. */
    method HandleTagSelect(tag: Tag)
      requires Valid() && tag in filteredTags
      modifies this
      ensures Valid()
      ensures selectedTags == SelectTag(old(selectedTags), tag) && !isDropdownOpen
      ensures filteredTags == old(filteredTags) && searchTerm == old(searchTerm)
      ensures highlightedIndex == old(highlightedIndex)
    {
      FilterTagsSpec(tags, searchTerm);
      SelectKeepsUniqueIds(selectedTags, tag);
      if !HasId(selectedTags, tag.id) {
        selectedTags := selectedTags + [tag];
      }
      isDropdownOpen := false;
    }

    /** Clicking a pill's remove button: drop every selected entry with that id. */
    method HandleTagRemove(tagId: int)
      requires Valid()
      modifies this
      ensures Valid()
      ensures selectedTags == RemoveTag(old(selectedTags), tagId)
      ensures filteredTags == old(filteredTags) && searchTerm == old(searchTerm)
      ensures isDropdownOpen == old(isDropdownOpen) && highlightedIndex == old(highlightedIndex)
    {
      RemoveKeepsUniqueIds(selectedTags, tagId);
      selectedTags := RemoveTag(selectedTags, tagId);
    }

    /**
     * A key press in the input. ArrowDown and ArrowUp move the highlight over
     * the filtered list; Enter with a highlight selects the tag under it. When
     * the highlight lies outside the list, JavaScript reads `undefined` there:
     * the result reports that, and the state is left as it was.
     */
    method HandleKeyDown(key: string) returns (readUndefined: bool)
      requires Valid()
      modifies this
      ensures Valid()
      ensures filteredTags == old(filteredTags) && searchTerm == old(searchTerm)
      ensures key == "ArrowDown" ==>
                && highlightedIndex == Some(NextDown(old(highlightedIndex), |filteredTags|))
                && selectedTags == old(selectedTags) && isDropdownOpen == old(isDropdownOpen) && !readUndefined
      ensures key == "ArrowUp" ==>
                && highlightedIndex == Some(NextUp(old(highlightedIndex), |filteredTags|))
                && selectedTags == old(selectedTags) && isDropdownOpen == old(isDropdownOpen) && !readUndefined
      ensures key == "Enter" ==>
                && highlightedIndex == old(highlightedIndex)
                && match EnterLookup(filteredTags, old(highlightedIndex))
                   case Found(tag) => selectedTags == SelectTag(old(selectedTags), tag) && !isDropdownOpen && !readUndefined
                   case Undefined => selectedTags == old(selectedTags) && isDropdownOpen == old(isDropdownOpen) && readUndefined
                   case NoHighlight => selectedTags == old(selectedTags) && isDropdownOpen == old(isDropdownOpen) && !readUndefined
      ensures key != "ArrowDown" && key != "ArrowUp" && key != "Enter" ==> unchanged(this) && !readUndefined
    {
      readUndefined := false;
      if key == "ArrowDown" {
        highlightedIndex := Some(NextDown(highlightedIndex, |filteredTags|));
      } else if key == "ArrowUp" {
        highlightedIndex := Some(NextUp(highlightedIndex, |filteredTags|));
      } else if key == "Enter" && highlightedIndex.Some? {
        var i := highlightedIndex.value;
        if 0 <= i < |filteredTags| {
          HandleTagSelect(filteredTags[i]);
        } else {
          readUndefined := true;
        }
      }
    }

    /** Focusing the input opens the dropdown. */
    method HandleFocus()
      requires Valid()
      modifies this
      ensures Valid()
      ensures isDropdownOpen
      ensures selectedTags == old(selectedTags) && filteredTags == old(filteredTags)
      ensures searchTerm == old(searchTerm) && highlightedIndex == old(highlightedIndex)
    {
      isDropdownOpen := true;
    }

    /**
     * A click anywhere in the document. `inputMounted` says whether the input
     * element exists, `targetInInput` whether the click landed inside it; a
     * click elsewhere, even elsewhere in the widget, closes the dropdown.
     */
    method HandleClickOutside(inputMounted: bool, targetInInput: bool)
      requires Valid()
      modifies this
      ensures Valid()
      ensures isDropdownOpen == (old(isDropdownOpen) && !(inputMounted && !targetInInput))
      ensures selectedTags == old(selectedTags) && filteredTags == old(filteredTags)
      ensures searchTerm == old(searchTerm) && highlightedIndex == old(highlightedIndex)
    {
      if inputMounted && !targetInInput {
        isDropdownOpen := false;
      }
    }

    /**
     * The dropdown's groups: the filtered list reduced into an object keyed by
     * group name, then listed as (name, tags) entries in key order.
     */
    method GroupedTags() returns (entries: seq<(string, seq<Tag>)>)
      ensures WellFormed(GroupTags(filteredTags))
      ensures entries == Entries(GroupTags(filteredTags))
    {
      var keys: seq<string> := [];
      var groups: map<string, seq<Tag>> := map[];
      for i := 0 to |filteredTags|
        invariant Groups(keys, groups) == GroupTags(filteredTags[..i])
      {
        var tag := filteredTags[i];
        assert filteredTags[..i + 1][..i] == filteredTags[..i];
        if tag.group !in groups {
          keys := keys + [tag.group];
          groups := groups[tag.group := []];
        }
        groups := groups[tag.group := groups[tag.group] + [tag]];
      }
      assert filteredTags[..|filteredTags|] == filteredTags;
      GroupTagsKeys(filteredTags);
      entries := Entries(Groups(keys, groups));
    }
  }

  /** Selecting the same tag twice leaves one entry. */
  method SelectTwiceScenario()
  {
    var p := new TagPicker(MockTags);
    p.HandleTagSelect(MockTags[0]);
    p.HandleTagSelect(MockTags[0]);
    SelectTagSpec([], MockTags[0]);
    assert p.selectedTags == [MockTags[0]];
  }

  /** Over three listed tags: down, down, up, up visits 0, 1, 0 and wraps to 2. */
  method NavigationScenario()
  {
    var p := new TagPicker(MockTags[..3]);
    var undefinedRead := p.HandleKeyDown("ArrowDown");
    assert p.highlightedIndex == Some(0);
    undefinedRead := p.HandleKeyDown("ArrowDown");
    assert p.highlightedIndex == Some(1);
    undefinedRead := p.HandleKeyDown("ArrowUp");
    assert p.highlightedIndex == Some(0);
    undefinedRead := p.HandleKeyDown("ArrowUp");
    assert p.highlightedIndex == Some(2);
  }

  /** A click inside the input keeps the dropdown open; a click elsewhere closes it. */
  method OutsideClickScenario()
  {
    var p := new TagPicker(MockTags);
    p.HandleFocus();
    p.HandleClickOutside(true, true);
    assert p.isDropdownOpen;
    p.HandleClickOutside(true, false);
    assert !p.isDropdownOpen;
  }

  /** Mounting over `pool`, selecting its first tag and pressing ArrowDown twice highlights position 1. */
  method SelectThenTwoDown(pool: seq<Tag>) returns (p: TagPicker)
    requires |pool| >= 2
    ensures fresh(p) && p.Valid() && p.tags == pool
    ensures p.selectedTags == [pool[0]] && p.highlightedIndex == Some(1)
  {
    p := new TagPicker(pool);
    p.HandleTagSelect(pool[0]);
    assert p.selectedTags == [pool[0]];
    var undefinedRead := p.HandleKeyDown("ArrowDown");
    assert p.highlightedIndex == Some(0);
    undefinedRead := p.HandleKeyDown("ArrowDown");
  }

  /**
   * With one tag already selected, a search that shortens the list to one tag
   * leaves a highlight of 1 past its end, and Enter then reads `undefined`
   * and selects nothing (searching the initial pool for "Ja" is such a search).
   */
  method StaleHighlightScenario(pool: seq<Tag>, value: string)
    requires |pool| >= 2 && |FilterTags(pool, Lower(value))| == 1
  {
    var p := SelectThenTwoDown(pool);
    p.HandleSearch(value);
    assert p.highlightedIndex == Some(1) && |p.filteredTags| == 1;
    var undefinedRead := p.HandleKeyDown("Enter");
    assert undefinedRead && p.selectedTags == [pool[0]];
  }

  /** The initial pool and the query "Ja" meet the stale-highlight scenario's conditions. */
  method StaleHighlightOnMockTags()
  {
    SearchJaOnMockTags();
    StaleHighlightScenario(MockTags, "Ja");
  }
}
