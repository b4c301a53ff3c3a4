/**
 * Tags and the two list operations the picker performs on them: the search
 * filter over the tag pool and the add/remove updates of the selection.
 */
module Tags {
  import opened Seqs
  import opened Text

  /** A tag: a numeric identifier, a display name and the name of its group. */
  datatype Tag = Tag(id: int, name: string, group: string)

  /** The pool the picker starts with. */
  const MockTags: seq<Tag> := [
    Tag(1, "JavaScript", "Programming"),
    Tag(2, "Python", "Programming"),
    Tag(3, "React", "Libraries"),
    Tag(4, "Node.js", "Backend"),
    Tag(5, "CSS", "Web Design"),
    Tag(6, "HTML", "Web Design"),
    Tag(7, "GraphQL", "Libraries")
  ]

  // ---------------------------------------------------------------------
  // Search
  // ---------------------------------------------------------------------

  /** The search test: the lower-cased name contains the (already lower-cased) query. */
  predicate Matches(tag: Tag, query: string)
  {
    Contains(Lower(tag.name), query)
  }

  function MatchesQuery(query: string): Tag -> bool
  {
    (t: Tag) => Matches(t, query)
  }

  /** `tags.filter(tag => tag.name.toLowerCase().includes(query))`. */
  function FilterTags(pool: seq<Tag>, query: string): (r: seq<Tag>)
    ensures |r| <= |pool|
    ensures forall i :: 0 <= i < |r| ==> Matches(r[i], query)
  {
    Keep(pool, MatchesQuery(query))
  }

  /**
   * The filtered list is the subsequence of the pool made of exactly the tags
   * whose lower-cased name contains the query, each as often as in the pool.
   */
  lemma FilterTagsSpec(pool: seq<Tag>, query: string)
    ensures IsSubsequence(FilterTags(pool, query), pool)
    ensures forall t :: multiset(FilterTags(pool, query))[t] == if Matches(t, query) then multiset(pool)[t] else 0
    ensures forall t :: t in FilterTags(pool, query) <==> t in pool && Matches(t, query)
  {
    KeepIsFilter(pool, MatchesQuery(query));
    var r := FilterTags(pool, query);
    forall t
      ensures t in r <==> t in pool && Matches(t, query)
    {
      assert t in r <==> multiset(r)[t] > 0;
      assert t in pool <==> multiset(pool)[t] > 0;
    }
  }

  /** An empty search box shows the whole pool. */
  lemma FilterEmptyQuery(pool: seq<Tag>)
    ensures FilterTags(pool, Lower("")) == pool
  {
    assert Lower("") == "";
    forall i | 0 <= i < |pool|
      ensures MatchesQuery("")(pool[i])
    {
      ContainsEmpty(Lower(pool[i].name));
    }
    KeepAll(pool, MatchesQuery(""));
  }

  /** Typing more characters can only narrow the list: the longer query's result is a subsequence of the shorter one's. */
  lemma FilterNarrows(pool: seq<Tag>, typed: string, more: string)
    ensures IsSubsequence(FilterTags(pool, Lower(typed + more)), FilterTags(pool, Lower(typed)))
  {
    LowerConcat(typed, more);
    forall t | MatchesQuery(Lower(typed + more))(t)
      ensures MatchesQuery(Lower(typed))(t)
    {
      ContainsPrefixOfNeedle(Lower(t.name), Lower(typed), Lower(more));
    }
    KeepMonotone(pool, MatchesQuery(Lower(typed + more)), MatchesQuery(Lower(typed)));
  }

  /** Searching again for the stored (lower-cased) search term gives the same list. */
  lemma FilterStoredTerm(pool: seq<Tag>, value: string)
    ensures FilterTags(pool, Lower(Lower(value))) == FilterTags(pool, Lower(value))
  {
    LowerIdempotent(value);
  }

  // ---------------------------------------------------------------------
  // Selection
  // ---------------------------------------------------------------------

  /** `selected.some((s) => s.id === id)`. */
  predicate HasId(selected: seq<Tag>, id: int)
  {
    exists i :: 0 <= i < |selected| && selected[i].id == id
  }

  /** No two entries of the selection share an identifier. */
  predicate UniqueIds(selected: seq<Tag>)
  {
    forall i, j :: 0 <= i < j < |selected| ==> selected[i].id != selected[j].id
  }

  /** The selection after choosing `tag`: appended when its id is absent. */
  function SelectTag(selected: seq<Tag>, tag: Tag): (r: seq<Tag>)
    ensures r != [] && selected <= r && |r| <= |selected| + 1
  {
    if HasId(selected, tag.id) then selected else selected + [tag]
  }

  function WithoutId(id: int): Tag -> bool
  {
    (t: Tag) => t.id != id
  }

  /** `selected.filter((tag) => tag.id !== id)`. */
  function RemoveTag(selected: seq<Tag>, id: int): (r: seq<Tag>)
    ensures !HasId(r, id)
    ensures forall i :: 0 <= i < |r| ==> r[i] in selected
  {
    Keep(selected, WithoutId(id))
  }

  /**
   * Selecting keeps every earlier entry in place, and afterwards the tag's id
   * is present; the selection grows by exactly the tag when its id was absent
   * and is unchanged otherwise.
   */
  lemma SelectTagSpec(selected: seq<Tag>, tag: Tag)
    ensures selected <= SelectTag(selected, tag)
    ensures HasId(SelectTag(selected, tag), tag.id)
    ensures !HasId(selected, tag.id) ==> SelectTag(selected, tag)[|selected|..] == [tag]
    ensures HasId(selected, tag.id) ==> SelectTag(selected, tag) == selected
  {
    if !HasId(selected, tag.id) {
      assert SelectTag(selected, tag)[|selected|].id == tag.id;
    }
  }

  /** Selecting the same tag twice is selecting it once. */
  lemma SelectIdempotent(selected: seq<Tag>, tag: Tag)
    ensures SelectTag(SelectTag(selected, tag), tag) == SelectTag(selected, tag)
  {
    SelectTagSpec(selected, tag);
  }

  /** Selecting keeps identifiers unique. */
  lemma SelectKeepsUniqueIds(selected: seq<Tag>, tag: Tag)
    requires UniqueIds(selected)
    ensures UniqueIds(SelectTag(selected, tag))
  {
  }

  /** Removing deletes every entry with the id and keeps the others, in order and with their multiplicity. */
  lemma RemoveTagSpec(selected: seq<Tag>, id: int)
    ensures !HasId(RemoveTag(selected, id), id)
    ensures IsSubsequence(RemoveTag(selected, id), selected)
    ensures forall t :: multiset(RemoveTag(selected, id))[t] == if t.id == id then 0 else multiset(selected)[t]
  {
    KeepIsFilter(selected, WithoutId(id));
  }

  /** Removing an id that is not selected changes nothing. */
  lemma RemoveAbsent(selected: seq<Tag>, id: int)
    requires !HasId(selected, id)
    ensures RemoveTag(selected, id) == selected
  {
    KeepAll(selected, WithoutId(id));
  }

  /** Removing keeps identifiers unique. */
  lemma {:induction false} RemoveKeepsUniqueIds(selected: seq<Tag>, id: int)
    requires UniqueIds(selected)
    ensures UniqueIds(RemoveTag(selected, id))
  {
    if selected != [] {
      RemoveKeepsUniqueIds(selected[1..], id);
      var rest := RemoveTag(selected[1..], id);
      forall j | 0 <= j < |rest|
        ensures rest[j].id != selected[0].id
      {
        var k :| k in selected[1..] && k == rest[j];
      }
    }
  }

  /** Removing a tag just selected, whose id was absent, restores the earlier selection. */
  lemma RemoveUndoesSelect(selected: seq<Tag>, tag: Tag)
    requires !HasId(selected, tag.id)
    ensures RemoveTag(SelectTag(selected, tag), tag.id) == selected
  {
    KeepConcat(selected, [tag], WithoutId(tag.id));
    RemoveAbsent(selected, tag.id);
  }

  /** Only JavaScript, of the initial pool, matches the query "ja". */
  lemma NameLacksJ(tag: Tag, lowered: string)
    requires Lower(tag.name) == lowered && 'j' !in lowered
    ensures !Matches(tag, "ja")
  {
    MissingFirstChar(lowered, "ja");
  }

  lemma NodeLacksJa()
    ensures !Matches(MockTags[3], "ja")
  {
    assert Lower("Node.js") == "node.js";
    MissingFirstChar("s", "ja");
    assert !("ja" <= "js") by {
      assert "js"[1] != "ja"[1];
    }
    assert "js"[1..] == "s";
    assert !Contains("js", "ja");
    assert !Contains(".js", "ja");
    assert !Contains("e.js", "ja");
    assert !Contains("de.js", "ja");
    assert !Contains("ode.js", "ja");
  }

  lemma OnlyJavaScriptMatchesJa(i: nat)
    requires i < |MockTags|
    ensures Matches(MockTags[i], "ja") <==> i == 0
  {
    if i == 0 {
      assert Lower("JavaScript") == "javascript";
    } else if i == 1 {
      NameLacksJ(MockTags[1], "python");
    } else if i == 2 {
      NameLacksJ(MockTags[2], "react");
    } else if i == 3 {
      NodeLacksJa();
    } else if i == 4 {
      NameLacksJ(MockTags[4], "css");
    } else if i == 5 {
      NameLacksJ(MockTags[5], "html");
    } else {
      NameLacksJ(MockTags[6], "graphql");
    }
  }

  /** Searching the initial pool for "Ja" leaves only JavaScript. */
  lemma SearchJaOnMockTags()
    ensures FilterTags(MockTags, Lower("Ja")) == [MockTags[0]]
  {
    assert Lower("Ja") == "ja";
    var p := MatchesQuery("ja");
    var rest := MockTags[1..];
    forall i | 0 <= i < |rest|
      ensures !p(rest[i])
    {
      OnlyJavaScriptMatchesJa(i + 1);
    }
    KeepNone(rest, p);
    OnlyJavaScriptMatchesJa(0);
    assert Keep(MockTags, p) == [MockTags[0]] + Keep(rest, p);
  }
}
