/**
 The paper's metadata record (`paper.yml`) and the check that every
 required key is present before any fragment is written.
 */
module Metadata {
  import opened Wrappers

  /** One entry of the `authors` list. */
  datatype Author = Author(name: string, affiliation: string)

  /** One entry of the `affiliations` list. */
  datatype Affiliation = Affiliation(index: string, name: string)

  /**
   The five keys the LaTeX pipeline reads; a key is present when its field is
   `Some`. Other keys of the YAML file play no part and are not represented.
   */
  datatype Metadata = Metadata(
    title: Option<string>,
    authors: Option<seq<Author>>,
    affiliations: Option<seq<Affiliation>>,
    keywords: Option<seq<string>>,
    bibliography: Option<string>)

  /** The required keys, in the order they are checked. */
  const RequiredKeys: seq<string> := ["title", "authors", "affiliations", "keywords", "bibliography"]

  /** The keys the record has, by their names in the YAML file. */
  function Keys(m: Metadata): (keys: set<string>)
  {
    (if m.title.Some? then {"title"} else {})
    + (if m.authors.Some? then {"authors"} else {})
    + (if m.affiliations.Some? then {"affiliations"} else {})
    + (if m.keywords.Some? then {"keywords"} else {})
    + (if m.bibliography.Some? then {"bibliography"} else {})
  }

  /** Every required key is present. */
  predicate Complete(m: Metadata)
  {
    m.title.Some? && m.authors.Some? && m.affiliations.Some? && m.keywords.Some? && m.bibliography.Some?
  }

  /** Having every key of RequiredKeys is the same as every field being present. */
  lemma CompleteIffKeys(m: Metadata)
    ensures Complete(m) <==> forall k :: k in RequiredKeys ==> k in Keys(m)
  {
    if forall k :: k in RequiredKeys ==> k in Keys(m) {
      assert RequiredKeys[0] in Keys(m);
      assert RequiredKeys[1] in Keys(m);
      assert RequiredKeys[2] in Keys(m);
      assert RequiredKeys[3] in Keys(m);
      assert RequiredKeys[4] in Keys(m);
    }
  }

  /**
   Walks RequiredKeys in order and fails with the first key the record lacks;
   passes only when all five are present.
   */
  method CheckRequiredKeys(m: Metadata) returns (r: Outcome<string>)
    ensures r.Pass? <==> forall k :: k in RequiredKeys ==> k in Keys(m)
    ensures r.Fail? ==> (exists i :: 0 <= i < |RequiredKeys| && r.error == RequiredKeys[i]
                                && r.error !in Keys(m)
                                && forall j :: 0 <= j < i ==> RequiredKeys[j] in Keys(m))
  {
    for i := 0 to |RequiredKeys|
      invariant forall j :: 0 <= j < i ==> RequiredKeys[j] in Keys(m)
    {
      if RequiredKeys[i] !in Keys(m) {
        return Fail(RequiredKeys[i]);
      }
    }
    return Pass;
  }
}
