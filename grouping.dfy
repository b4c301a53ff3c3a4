/**
 * Grouping the filtered tags by group name for the dropdown: the `reduce`
 * over the filtered list into a JavaScript object whose keys keep their
 * insertion order, and `Object.entries` over the result.
 */
module Grouping {
  import opened Seqs
  import opened Tags

  /**
   * A JavaScript object used as a dictionary from group name to tags: its
   * keys in insertion order, and the value stored under each key.
   */
  datatype Groups = Groups(keys: seq<string>, members: map<string, seq<Tag>>)

  /** The keys are distinct and are exactly the names that have a value. */
  ghost predicate WellFormed(g: Groups)
  {
    && (forall i, j :: 0 <= i < j < |g.keys| ==> g.keys[i] != g.keys[j])
    && (forall k :: k in g.members <==> k in g.keys)
  }

  /** The reducer body: create the group on its first tag, then push the tag onto it. */
  function AddTag(g: Groups, tag: Tag): (r: Groups)
    ensures tag.group in g.members ==> r.keys == g.keys
    ensures tag.group !in g.members ==> r.keys == g.keys + [tag.group]
    ensures r.members == g.members[tag.group := (if tag.group in g.members then g.members[tag.group] else []) + [tag]]
  {
    var created := if tag.group in g.members then g
                   else Groups(g.keys + [tag.group], g.members[tag.group := []]);
    Groups(created.keys, created.members[tag.group := created.members[tag.group] + [tag]])
  }

  /** `tags.reduce(AddTag, {})`, folding from the first tag to the last. */
  function GroupTags(tags: seq<Tag>): Groups
  {
    if tags == [] then Groups([], map[])
    else AddTag(GroupTags(tags[..|tags| - 1]), tags[|tags| - 1])
  }

  /** `Object.entries`: the (name, tags) pairs in key order. */
  function Entries(g: Groups): (r: seq<(string, seq<Tag>)>)
    requires WellFormed(g)
    ensures |r| == |g.keys|
    ensures forall i :: 0 <= i < |r| ==> r[i].0 == g.keys[i]
    ensures forall i :: 0 <= i < |r| ==> r[i].0 in g.members && r[i].1 == g.members[r[i].0]
    ensures forall i, j :: 0 <= i < j < |r| ==> r[i].0 != r[j].0
  {
    seq(|g.keys|, i requires 0 <= i < |g.keys| => (g.keys[i], g.members[g.keys[i]]))
  }

  /** The tags of all entries, one entry after the other. */
  function Flatten(entries: seq<(string, seq<Tag>)>): seq<Tag>
  {
    if entries == [] then []
    else Flatten(entries[..|entries| - 1]) + entries[|entries| - 1].1
  }

  /** Some tag of `tags` belongs to group `name`. */
  predicate HasGroup(tags: seq<Tag>, name: string)
  {
    exists i :: 0 <= i < |tags| && tags[i].group == name
  }

  function InGroup(name: string): Tag -> bool
  {
    (t: Tag) => t.group == name
  }

  /** The position of the first tag of group `name`. */
  function FirstIndex(tags: seq<Tag>, name: string): (r: nat)
    requires HasGroup(tags, name)
    ensures r < |tags| && tags[r].group == name
    ensures forall i :: 0 <= i < r ==> tags[i].group != name
  {
    if tags[0].group == name then 0
    else
      assert HasGroup(tags[1..], name) by {
        var i :| 0 <= i < |tags| && tags[i].group == name;
        assert tags[1..][i - 1].group == name;
      }
      1 + FirstIndex(tags[1..], name)
  }

  /** Names listed by some entry. */
  predicate NamedBy(entries: seq<(string, seq<Tag>)>, name: string)
  {
    exists i :: 0 <= i < |entries| && entries[i].0 == name
  }

  /** The tags of each group stand together: between two tags of one group there are only tags of that group. */
  predicate Clustered(tags: seq<Tag>)
  {
    forall i, j, k :: 0 <= i < j < k < |tags| && tags[i].group == tags[k].group ==> tags[j].group == tags[k].group
  }

  // ---------------------------------------------------------------------
  // Properties of the fold
  // ---------------------------------------------------------------------

  lemma KeepGroupSnoc(pre: seq<Tag>, t: Tag, name: string)
    ensures Keep(pre + [t], InGroup(name)) == Keep(pre, InGroup(name)) + (if t.group == name then [t] else [])
  {
    KeepConcat(pre, [t], InGroup(name));
    assert [t][1..] == [];
  }

  lemma KeepGroupAbsent(tags: seq<Tag>, name: string)
    requires !HasGroup(tags, name)
    ensures Keep(tags, InGroup(name)) == []
  {
  }

  lemma HasGroupSnoc(pre: seq<Tag>, t: Tag, name: string)
    ensures HasGroup(pre + [t], name) <==> HasGroup(pre, name) || t.group == name
  {
    var tags := pre + [t];
    if HasGroup(pre, name) {
      var i :| 0 <= i < |pre| && pre[i].group == name;
      assert tags[i].group == name;
    }
    if HasGroup(tags, name) && t.group != name {
      var i :| 0 <= i < |tags| && tags[i].group == name;
      assert pre[i].group == name;
    }
    if t.group == name {
      assert tags[|pre|].group == name;
    }
  }

  lemma FirstIndexIs(tags: seq<Tag>, name: string, r: nat)
    requires r < |tags| && tags[r].group == name
    requires forall i :: 0 <= i < r ==> tags[i].group != name
    ensures HasGroup(tags, name) && FirstIndex(tags, name) == r
  {
  }

  /** One step of the fold keeps the object well formed and its keys equal to the group names seen so far. */
  lemma KeysStep(g: Groups, pre: seq<Tag>, t: Tag)
    requires WellFormed(g) && forall k :: k in g.members <==> HasGroup(pre, k)
    ensures WellFormed(AddTag(g, t))
    ensures forall k :: k in AddTag(g, t).members <==> HasGroup(pre + [t], k)
  {
    forall k
      ensures k in AddTag(g, t).members <==> HasGroup(pre + [t], k)
    {
      HasGroupSnoc(pre, t, k);
    }
  }

  /** The fold builds a well-formed object whose keys are exactly the group names occurring in `tags`. */
  lemma {:induction false} GroupTagsKeys(tags: seq<Tag>)
    ensures WellFormed(GroupTags(tags))
    ensures forall k :: k in GroupTags(tags).members <==> HasGroup(tags, k)
  {
    if tags != [] {
      var n := |tags|;
      var pre, t := tags[..n - 1], tags[n - 1];
      assert tags == pre + [t];
      GroupTagsKeys(pre);
      KeysStep(GroupTags(pre), pre, t);
    }
  }

  lemma KeyHasGroup(tags: seq<Tag>, name: string)
    ensures name in GroupTags(tags).members ==> HasGroup(tags, name)
  {
    GroupTagsKeys(tags);
  }

  /** The value under each name is the order-preserving filter of `tags` by that name. */
  lemma {:induction false} GroupTagsMembers(tags: seq<Tag>)
    ensures forall k :: k in GroupTags(tags).members ==> GroupTags(tags).members[k] == Keep(tags, InGroup(k))
  {
    if tags != [] {
      var n := |tags|;
      var pre, t := tags[..n - 1], tags[n - 1];
      assert tags == pre + [t];
      GroupTagsMembers(pre);
      GroupTagsKeys(pre);
      var g0 := GroupTags(pre);
      forall k | k in GroupTags(tags).members
        ensures GroupTags(tags).members[k] == Keep(tags, InGroup(k))
      {
        KeepGroupSnoc(pre, t, k);
        if k == t.group && k !in g0.members {
          KeepGroupAbsent(pre, k);
        }
      }
    }
  }

  lemma FirstIndexSnoc(pre: seq<Tag>, t: Tag, name: string)
    requires HasGroup(pre, name)
    ensures HasGroup(pre + [t], name) && FirstIndex(pre + [t], name) == FirstIndex(pre, name) < |pre|
  {
    FirstIndexIs(pre + [t], name, FirstIndex(pre, name));
  }

  lemma FirstIndexNew(pre: seq<Tag>, t: Tag)
    requires !HasGroup(pre, t.group)
    ensures HasGroup(pre + [t], t.group) && FirstIndex(pre + [t], t.group) == |pre|
  {
    FirstIndexIs(pre + [t], t.group, |pre|);
  }

  /** Every key names a group of `tags`, and the keys come in the order in which their groups first occur. */
  ghost predicate OrderedByFirst(tags: seq<Tag>, keys: seq<string>)
  {
    && (forall i :: 0 <= i < |keys| ==> HasGroup(tags, keys[i]))
    && (forall i, j :: 0 <= i < j < |keys| ==> FirstIndex(tags, keys[i]) < FirstIndex(tags, keys[j]))
  }

  /** A tag appended to the list leaves the first positions of the earlier groups where they were. */
  lemma OrderedSnocOld(pre: seq<Tag>, t: Tag, keys: seq<string>)
    requires OrderedByFirst(pre, keys)
    ensures OrderedByFirst(pre + [t], keys)
    ensures forall i :: 0 <= i < |keys| ==> FirstIndex(pre + [t], keys[i]) < |pre|
  {
    forall i | 0 <= i < |keys|
      ensures HasGroup(pre + [t], keys[i]) && FirstIndex(pre + [t], keys[i]) == FirstIndex(pre, keys[i]) < |pre|
    {
      FirstIndexSnoc(pre, t, keys[i]);
    }
  }

  /** A tag of a group not seen before puts that group last. */
  lemma OrderedSnocNew(pre: seq<Tag>, t: Tag, keys: seq<string>)
    requires OrderedByFirst(pre, keys) && !HasGroup(pre, t.group)
    ensures OrderedByFirst(pre + [t], keys + [t.group])
  {
    var s, keys' := pre + [t], keys + [t.group];
    OrderedSnocOld(pre, t, keys);
    FirstIndexNew(pre, t);
    forall i | 0 <= i < |keys'|
      ensures HasGroup(s, keys'[i]) && FirstIndex(s, keys'[i]) == if i < |keys| then FirstIndex(s, keys[i]) else |pre|
    {
      if i < |keys| {
        assert keys'[i] == keys[i];
      }
    }
  }

  /** The keys are ordered by the position where each name first occurs. */
  lemma {:induction false} GroupTagsOrder(tags: seq<Tag>)
    ensures OrderedByFirst(tags, GroupTags(tags).keys)
  {
    if tags != [] {
      var n := |tags|;
      var pre, t := tags[..n - 1], tags[n - 1];
      assert tags == pre + [t];
      GroupTagsOrder(pre);
      if t.group in GroupTags(pre).members {
        OrderedSnocOld(pre, t, GroupTags(pre).keys);
      } else {
        GroupTagsKeys(pre);
        OrderedSnocNew(pre, t, GroupTags(pre).keys);
      }
    }
  }

  // ---------------------------------------------------------------------
  // Properties of the entries the dropdown renders
  // ---------------------------------------------------------------------

  lemma {:induction false} FlattenCounts(tags: seq<Tag>, entries: seq<(string, seq<Tag>)>)
    requires forall i, j :: 0 <= i < j < |entries| ==> entries[i].0 != entries[j].0
    requires forall i :: 0 <= i < |entries| ==> entries[i].1 == Keep(tags, InGroup(entries[i].0))
    ensures forall x :: multiset(Flatten(entries))[x] == if NamedBy(entries, x.group) then multiset(tags)[x] else 0
  {
    if entries != [] {
      var m := |entries|;
      var init, e := entries[..m - 1], entries[m - 1];
      FlattenCounts(tags, init);
      KeepIsFilter(tags, InGroup(e.0));
      forall x
        ensures multiset(Flatten(entries))[x] == if NamedBy(entries, x.group) then multiset(tags)[x] else 0
      {
        if NamedBy(entries, x.group) {
          var i :| 0 <= i < m && entries[i].0 == x.group;
          if i < m - 1 {
            assert init[i].0 == x.group;
          }
        }
        if NamedBy(init, x.group) {
          var i :| 0 <= i < m - 1 && init[i].0 == x.group;
          assert entries[i].0 == x.group;
        }
      }
    }
  }

  /**
   * Regrouping loses nothing: the entries together hold exactly the tags of
   * the filtered list, each as often as it occurs there.
   */
  lemma GroupingLossless(tags: seq<Tag>)
    ensures WellFormed(GroupTags(tags))
    ensures multiset(Flatten(Entries(GroupTags(tags)))) == multiset(tags)
  {
    GroupedEntries(tags);
    var es := Entries(GroupTags(tags));
    FlattenCounts(tags, es);
    forall x
      ensures multiset(Flatten(es))[x] == multiset(tags)[x]
    {
      if x in tags {
        var p :| 0 <= p < |tags| && tags[p] == x;
        assert NamedBy(es, tags[p].group);
      }
    }
  }

  /**
   * The entries have distinct names; every entry is non-empty and holds the
   * tags of its group in their original relative order; every tag's group has
   * an entry.
   */
  lemma GroupedEntries(tags: seq<Tag>)
    ensures WellFormed(GroupTags(tags))
    ensures forall i, j :: 0 <= i < j < |Entries(GroupTags(tags))| ==>
              Entries(GroupTags(tags))[i].0 != Entries(GroupTags(tags))[j].0
    ensures forall i :: 0 <= i < |Entries(GroupTags(tags))| ==>
              && Entries(GroupTags(tags))[i].1 != []
              && Entries(GroupTags(tags))[i].1 == Keep(tags, InGroup(Entries(GroupTags(tags))[i].0))
    ensures forall i :: 0 <= i < |tags| ==> NamedBy(Entries(GroupTags(tags)), tags[i].group)
  {
    GroupTagsKeys(tags);
    var g := GroupTags(tags);
    var es := Entries(g);
    GroupTagsMembers(tags);
    forall i | 0 <= i < |es|
      ensures es[i].1 != []
    {
      var k := g.keys[i];
      var p := FirstIndex(tags, k);
      assert InGroup(k)(tags[p]);
      assert tags[p] in es[i].1;
    }
    forall p | 0 <= p < |tags|
      ensures NamedBy(es, tags[p].group)
    {
      assert HasGroup(tags, tags[p].group);
      var i :| 0 <= i < |g.keys| && g.keys[i] == tags[p].group;
      assert es[i].0 == tags[p].group;
    }
  }

  /** The entries come in the order in which their names first occur in `tags`. */
  lemma EntriesInFirstOccurrenceOrder(tags: seq<Tag>)
    ensures WellFormed(GroupTags(tags))
    ensures forall i, j :: 0 <= i < j < |Entries(GroupTags(tags))| ==>
              && HasGroup(tags, Entries(GroupTags(tags))[i].0)
              && HasGroup(tags, Entries(GroupTags(tags))[j].0)
              && FirstIndex(tags, Entries(GroupTags(tags))[i].0) < FirstIndex(tags, Entries(GroupTags(tags))[j].0)
  {
    GroupTagsKeys(tags);
    GroupTagsOrder(tags);
    var g := GroupTags(tags);
    var es := Entries(g);
    forall i, j | 0 <= i < j < |es|
      ensures HasGroup(tags, es[i].0) && HasGroup(tags, es[j].0) && FirstIndex(tags, es[i].0) < FirstIndex(tags, es[j].0)
    {
      assert es[i].0 == g.keys[i] && es[j].0 == g.keys[j];
    }
  }

  lemma {:induction false} FlattenIsClustered(entries: seq<(string, seq<Tag>)>)
    requires forall i, j :: 0 <= i < j < |entries| ==> entries[i].0 != entries[j].0
    requires forall i, p :: 0 <= i < |entries| && 0 <= p < |entries[i].1| ==> entries[i].1[p].group == entries[i].0
    ensures Clustered(Flatten(entries))
    ensures forall p :: 0 <= p < |Flatten(entries)| ==> NamedBy(entries, Flatten(entries)[p].group)
  {
    if entries != [] {
      var m := |entries|;
      var init, e := entries[..m - 1], entries[m - 1];
      FlattenIsClustered(init);
      var a, l := Flatten(init), e.1;
      var s := a + l;
      assert Flatten(entries) == s;
      assert forall p :: 0 <= p < |l| ==> l[p].group == e.0 by {
        assert entries[m - 1] == e;
      }
      forall p | 0 <= p < |a|
        ensures a[p].group != e.0
      {
        var i :| 0 <= i < m - 1 && init[i].0 == a[p].group;
      }
      forall p | 0 <= p < |s|
        ensures NamedBy(entries, s[p].group)
      {
        if p < |a| {
          var i :| 0 <= i < m - 1 && init[i].0 == a[p].group;
          assert entries[i].0 == s[p].group;
        } else {
          assert entries[m - 1].0 == s[p].group;
        }
      }
      ClusteredAppend(a, l, e.0);
    }
  }

  /** A clustered list followed by a block of one group that it does not contain is still clustered. */
  lemma ClusteredAppend(a: seq<Tag>, l: seq<Tag>, name: string)
    requires Clustered(a)
    requires forall p :: 0 <= p < |a| ==> a[p].group != name
    requires forall p :: 0 <= p < |l| ==> l[p].group == name
    ensures Clustered(a + l)
  {
    var s := a + l;
    forall i, j, k | 0 <= i < j < k < |s| && s[i].group == s[k].group
      ensures s[j].group == s[k].group
    {
      if k < |a| {
        assert a[i] == s[i] && a[j] == s[j] && a[k] == s[k];
      } else if i >= |a| {
        assert s[j] == l[j - |a|] && s[k] == l[k - |a|];
      }
    }
  }

  /** A tag of a new group adds an entry holding just that tag at the end. */
  lemma AddNewGroupEntries(g: Groups, t: Tag)
    requires WellFormed(g) && t.group !in g.members
    ensures WellFormed(AddTag(g, t))
    ensures Flatten(Entries(AddTag(g, t))) == Flatten(Entries(g)) + [t]
    ensures AddTag(g, t).keys == g.keys + [t.group]
  {
    var e0, e := Entries(g), Entries(AddTag(g, t));
    forall i | 0 <= i < |e0|
      ensures e[i] == e0[i]
    {
      assert g.keys[i] in g.members;
      assert AddTag(g, t).members[g.keys[i]] == g.members[g.keys[i]];
    }
    var g' := AddTag(g, t);
    assert g'.keys[|e0|] == t.group;
    assert g'.members[t.group] == [t];
    assert e[|e0|] == (g'.keys[|e0|], g'.members[g'.keys[|e0|]]);
    assert e == e0 + [(t.group, [t])];
    assert e[..|e| - 1] == e0;
  }

  /** A tag of the most recently created group extends the last entry. */
  lemma AddToLastGroupEntries(g: Groups, t: Tag)
    requires WellFormed(g) && |g.keys| > 0 && g.keys[|g.keys| - 1] == t.group
    ensures WellFormed(AddTag(g, t))
    ensures Flatten(Entries(AddTag(g, t))) == Flatten(Entries(g)) + [t]
    ensures AddTag(g, t).keys == g.keys
  {
    var e0, e := Entries(g), Entries(AddTag(g, t));
    var m := |g.keys|;
    assert e[..m - 1] == e0[..m - 1];
    assert e[m - 1].1 == e0[m - 1].1 + [t];
    assert Flatten(e) == Flatten(e[..m - 1]) + e[m - 1].1;
    assert Flatten(e0) == Flatten(e0[..m - 1]) + e0[m - 1].1;
  }

  lemma ClusteredPrefix(tags: seq<Tag>)
    requires tags != [] && Clustered(tags)
    ensures Clustered(tags[..|tags| - 1])
  {
    var pre := tags[..|tags| - 1];
    forall i, j, k | 0 <= i < j < k < |pre| && pre[i].group == pre[k].group
      ensures pre[j].group == pre[k].group
    {
      assert tags[i] == pre[i] && tags[j] == pre[j] && tags[k] == pre[k];
    }
  }

  /** In a clustered list, a tag whose group occurred before continues the group of the tag just before it. */
  lemma ExistingGroupIsLast(pre: seq<Tag>, t: Tag)
    requires Clustered(pre + [t]) && HasGroup(pre, t.group)
    ensures pre != [] && pre[|pre| - 1].group == t.group
  {
    var tags := pre + [t];
    var n := |tags|;
    var i :| 0 <= i < |pre| && pre[i].group == t.group;
    assert tags[i].group == tags[n - 1].group;
    assert tags[n - 2] == pre[|pre| - 1];
    if i < n - 2 {
      assert tags[n - 2].group == tags[n - 1].group;
    }
  }

  /** One step of the fold keeps the entries equal to the tags seen so far when the new tag opens or continues the last group. */
  lemma ReproduceStep(g: Groups, pre: seq<Tag>, t: Tag)
    requires WellFormed(g) && Flatten(Entries(g)) == pre
    requires t.group in g.members ==> |g.keys| > 0 && g.keys[|g.keys| - 1] == t.group
    ensures WellFormed(AddTag(g, t))
    ensures Flatten(Entries(AddTag(g, t))) == pre + [t]
    ensures |AddTag(g, t).keys| > 0 && AddTag(g, t).keys[|AddTag(g, t).keys| - 1] == t.group
  {
    if t.group !in g.members {
      AddNewGroupEntries(g, t);
    } else {
      AddToLastGroupEntries(g, t);
    }
  }

  /** One step of the fold over a clustered list keeps the entries equal to the tags seen so far. */
  lemma ClusteredStep(tags: seq<Tag>, g: Groups)
    requires tags != [] && Clustered(tags)
    requires WellFormed(g) && Flatten(Entries(g)) == tags[..|tags| - 1]
    requires tags[|tags| - 1].group in g.members ==> HasGroup(tags[..|tags| - 1], tags[|tags| - 1].group)
    requires tags[..|tags| - 1] != [] ==>
               |g.keys| > 0 && g.keys[|g.keys| - 1] == tags[..|tags| - 1][|tags[..|tags| - 1]| - 1].group
    ensures WellFormed(AddTag(g, tags[|tags| - 1]))
    ensures Flatten(Entries(AddTag(g, tags[|tags| - 1]))) == tags
    ensures |AddTag(g, tags[|tags| - 1]).keys| > 0 && AddTag(g, tags[|tags| - 1]).keys[|AddTag(g, tags[|tags| - 1]).keys| - 1] == tags[|tags| - 1].group
  {
    var pre, t := tags[..|tags| - 1], tags[|tags| - 1];
    assert tags == pre + [t];
    if t.group in g.members {
      ExistingGroupIsLast(pre, t);
    }
    ReproduceStep(g, pre, t);
  }

  lemma {:induction false} ClusteredReproduces(tags: seq<Tag>)
    requires Clustered(tags)
    ensures WellFormed(GroupTags(tags))
    ensures Flatten(Entries(GroupTags(tags))) == tags
    ensures tags != [] ==> |GroupTags(tags).keys| > 0 && GroupTags(tags).keys[|GroupTags(tags).keys| - 1] == tags[|tags| - 1].group
  {
    if tags != [] {
      var pre := tags[..|tags| - 1];
      ClusteredPrefix(tags);
      ClusteredReproduces(pre);
      KeyHasGroup(pre, tags[|tags| - 1].group);
      ClusteredStep(tags, GroupTags(pre));
    }
  }

  /**
   * Concatenating the entries reproduces the list exactly when the list
   * already keeps each group together; otherwise the dropdown shows the tags
   * in a different order than the flat list the highlight indexes.
   */
  lemma GroupingReproducesIffClustered(tags: seq<Tag>)
    ensures WellFormed(GroupTags(tags))
    ensures Flatten(Entries(GroupTags(tags))) == tags <==> Clustered(tags)
  {
    GroupedEntries(tags);
    var es := Entries(GroupTags(tags));
    forall i, p | 0 <= i < |es| && 0 <= p < |es[i].1|
      ensures es[i].1[p].group == es[i].0
    {
      assert es[i].1[p] in Keep(tags, InGroup(es[i].0));
    }
    FlattenIsClustered(es);
    if Clustered(tags) {
      ClusteredReproduces(tags);
    }
  }

  /** The initial pool is not clustered: Node.js stands between React and GraphQL, which share a group. */
  lemma MockTagsNotReproduced()
    ensures WellFormed(GroupTags(MockTags))
    ensures Flatten(Entries(GroupTags(MockTags))) != MockTags
  {
    GroupingReproducesIffClustered(MockTags);
    assert MockTags[2].group == MockTags[6].group && MockTags[3].group != MockTags[6].group;
  }
}
