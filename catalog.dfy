/**
  The fixed topic catalog of the topic selector and its case-insensitive
  search filter (components/videochat/TopicSelector.js).
 */
module Catalog {
  import opened Seqs

  /** One catalog entry: a stable id used as a key, a display name and an icon. */
  datatype Topic = Topic(id: string, name: string, icon: string)

  /** The catalog, in display order. */
  const Topics: seq<Topic> := [
    Topic("politics", "Politics", "🏛️"),
    Topic("technology", "Technology", "💻"),
    Topic("science", "Science", "🔬"),
    Topic("philosophy", "Philosophy", "🧠"),
    Topic("religion", "Religion", "🙏"),
    Topic("art", "Art & Culture", "🎨"),
    Topic("environment", "Environment", "🌍"),
    Topic("education", "Education", "📚"),
    Topic("economics", "Economics", "📈"),
    Topic("health", "Health & Medicine", "🏥"),
    Topic("sports", "Sports", "⚽"),
    Topic("food", "Food & Cuisine", "🍲"),
    Topic("travel", "Travel", "✈️"),
    Topic("music", "Music", "🎵"),
    Topic("movies", "Movies & TV", "🎬"),
    Topic("gaming", "Gaming", "🎮"),
    Topic("fashion", "Fashion", "👗"),
    Topic("relationships", "Relationships", "❤️"),
    Topic("parenting", "Parenting", "👶"),
    Topic("languages", "Languages", "🗣️")
  ]

  /** The ids of all catalog topics: the keys of every presence count map. */
  function TopicIds(): (ids: set<string>)
    ensures forall i :: 0 <= i < |Topics| ==> Topics[i].id in ids
    ensures forall t :: t in ids ==> exists i :: 0 <= i < |Topics| && Topics[i].id == t
    ensures "" !in ids
  {
    set i | 0 <= i < |Topics| :: Topics[i].id
  }

  /** No two catalog entries share an id, so the count map has one key per entry. */
  lemma CatalogIdsDistinct()
    ensures forall i, j :: 0 <= i < j < |Topics| ==> Topics[i].id != Topics[j].id
    ensures Distinct(Topics)
  {
  }

  /** The ids of a list of topics with pairwise distinct ids are as many as its entries. */
  lemma {:induction false} IdCount(ts: seq<Topic>)
    requires forall i, j :: 0 <= i < j < |ts| ==> ts[i].id != ts[j].id
    ensures |set i | 0 <= i < |ts| :: ts[i].id| == |ts|
    decreases |ts|
  {
    if ts != [] {
      var init := ts[..|ts| - 1];
      IdCount(init);
      var before := set i | 0 <= i < |init| :: init[i].id;
      var after := set i | 0 <= i < |ts| :: ts[i].id;
      assert after == before + {ts[|ts| - 1].id};
      assert ts[|ts| - 1].id !in before;
    }
  }

  /** The count map has exactly twenty keys, one per catalog entry. */
  lemma CatalogKeyCount()
    ensures |TopicIds()| == |Topics| == 20
  {
    CatalogIdsDistinct();
    IdCount(Topics);
  }

  /** The twenty-six ASCII capital letters and their lower-case forms, position by position. */
  const UpperLetters: string := "ABCDEFGHIJKLMNOPQRSTUVWXYZ"
  const LowerLetters: string := "abcdefghijklmnopqrstuvwxyz"

  /** Lower-casing of one character, restricted to ASCII letters. */
  function LowerChar(c: char): (r: char)
    ensures r !in UpperLetters
    ensures forall k :: 0 <= k < |UpperLetters| && c == UpperLetters[k] ==> r == LowerLetters[k]
    ensures c !in UpperLetters ==> r == c
  {
    if 'A' <= c <= 'Z' then (c as int + 32) as char else c
  }

  /** String lower-casing (ASCII letters only). */
  function Lower(s: string): (r: string)
    ensures |r| == |s|
    ensures forall i :: 0 <= i < |s| ==> r[i] == LowerChar(s[i])
  {
    if s == [] then [] else [LowerChar(s[0])] + Lower(s[1..])
  }

  /** Lower-casing twice is lower-casing once. */
  lemma LowerIdempotent(s: string)
    ensures Lower(Lower(s)) == Lower(s)
  {
  }

  /** needle occurs in haystack starting at position i. */
  predicate OccursAt(haystack: string, needle: string, i: int)
  {
    0 <= i && i + |needle| <= |haystack| && haystack[i..i + |needle|] == needle
  }

  /** When needle is not a prefix, its occurrences are exactly those in the tail, shifted by one. */
  lemma OccursInTail(haystack: string, needle: string)
    requires |needle| <= |haystack| && haystack[..|needle|] != needle
    ensures (exists i :: OccursAt(haystack, needle, i)) <==> (exists j :: OccursAt(haystack[1..], needle, j))
  {
    var tail := haystack[1..];
    forall i | OccursAt(haystack, needle, i)
      ensures OccursAt(tail, needle, i - 1)
    {
      assert tail[i - 1..i - 1 + |needle|] == haystack[i..i + |needle|];
    }
    forall j | OccursAt(tail, needle, j)
      ensures OccursAt(haystack, needle, j + 1)
    {
      assert haystack[j + 1..j + 1 + |needle|] == tail[j..j + |needle|];
    }
  }

  /**
    `haystack.includes(needle)`: needle is tried as a prefix, then in the tail.
    It holds exactly when needle occurs at some position of haystack.
   */
  function Includes(haystack: string, needle: string): (b: bool)
    ensures b <==> exists i :: OccursAt(haystack, needle, i)
    decreases |haystack|
  {
    if |needle| > |haystack| then false
    else if haystack[..|needle|] == needle then
      assert OccursAt(haystack, needle, 0);
      true
    else
      OccursInTail(haystack, needle);
      Includes(haystack[1..], needle)
  }

  /** The empty search term occurs in every name. */
  lemma IncludesEmpty(haystack: string)
    ensures Includes(haystack, "")
  {
  }

  /** The search predicate: the lower-cased name contains the lower-cased term. */
  predicate Matches(t: Topic, term: string)
  {
    Includes(Lower(t.name), Lower(term))
  }

  /** `ts.filter(topic => topic.name.toLowerCase().includes(term.toLowerCase()))`. */
  function FilterTopics(ts: seq<Topic>, term: string): (r: seq<Topic>)
    ensures IsSubsequence(r, ts)
    ensures forall i :: 0 <= i < |r| ==> Matches(r[i], term)
    ensures forall i :: 0 <= i < |ts| ==> (ts[i] in r <==> Matches(ts[i], term))
  {
    if ts == [] then []
    else if Matches(ts[0], term) then [ts[0]] + FilterTopics(ts[1..], term)
    else FilterTopics(ts[1..], term)
  }

  /**
    On a list without repeated entries, the filter's result is the only
    order-preserving subsequence that keeps exactly the matching topics.
   */
  lemma {:induction false} FilterUnique(ts: seq<Topic>, term: string, s: seq<Topic>)
    requires Distinct(ts)
    requires IsSubsequence(s, ts)
    requires forall i :: 0 <= i < |ts| ==> (ts[i] in s <==> Matches(ts[i], term))
    ensures s == FilterTopics(ts, term)
    decreases |ts|
  {
    if ts == [] {
      assert s == [];
    } else {
      var rest := ts[1..];
      assert forall i :: 0 <= i < |rest| ==> rest[i] == ts[i + 1];
      if s != [] && s[0] == ts[0] && IsSubsequence(s[1..], rest) {
        forall i | 0 <= i < |rest|
          ensures rest[i] in s[1..] <==> Matches(rest[i], term)
        {
          assert rest[i] != s[0];
          assert s == [s[0]] + s[1..];
        }
        FilterUnique(rest, term, s[1..]);
        assert ts[0] in s;
      } else {
        assert IsSubsequence(s, rest);
        SubsequenceMembers(s, rest);
        assert ts[0] !in s;
        forall i | 0 <= i < |rest|
          ensures rest[i] in s <==> Matches(rest[i], term)
        {
          assert rest[i] == ts[i + 1];
        }
        FilterUnique(rest, term, s);
      }
    }
  }

  /**
    `filteredTopics`: the catalog topics whose lower-cased name contains the
    lower-cased search term, in catalog order.
   */
  function FilteredTopics(searchTerm: string): (r: seq<Topic>)
    ensures IsSubsequence(r, Topics)
    ensures forall i :: 0 <= i < |Topics| ==> (Topics[i] in r <==> Matches(Topics[i], searchTerm))
    ensures forall i :: 0 <= i < |r| ==> Matches(r[i], searchTerm)
  {
    FilterTopics(Topics, searchTerm)
  }

  /** The shown topics are the only order-preserving selection of exactly the matching catalog topics. */
  lemma FilteredTopicsUnique(searchTerm: string, s: seq<Topic>)
    requires IsSubsequence(s, Topics)
    requires forall i :: 0 <= i < |Topics| ==> (Topics[i] in s <==> Matches(Topics[i], searchTerm))
    ensures s == FilteredTopics(searchTerm)
  {
    CatalogIdsDistinct();
    FilterUnique(Topics, searchTerm, s);
  }

  /** An empty search term keeps every topic, in order. */
  lemma {:induction false} FilterEmptyKeepsAll(ts: seq<Topic>)
    ensures FilterTopics(ts, "") == ts
  {
    if ts != [] {
      IncludesEmpty(Lower(ts[0].name));
      FilterEmptyKeepsAll(ts[1..]);
    }
  }

  /** With the search box empty, the whole catalog is shown. */
  lemma EmptySearchShowsCatalog()
    ensures FilteredTopics("") == Topics
  {
    FilterEmptyKeepsAll(Topics);
  }

  /** The search is case-insensitive: a term and its lower-cased form select the same topics. */
  lemma {:induction false} FilterCaseInsensitive(ts: seq<Topic>, term: string)
    ensures FilterTopics(ts, term) == FilterTopics(ts, Lower(term))
  {
    LowerIdempotent(term);
    if ts != [] {
      FilterCaseInsensitive(ts[1..], term);
    }
  }
}
