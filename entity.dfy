/** The two records the service hands out: a meme and a result page. */
module Entity {
  import opened Wrappers

  /** One meme record as decoded from its JSON file. `recognizedText` is the only nullable field. */
  datatype Meme = Meme(
    id: string,
    title: string,
    imageUrl: string,
    originalText: string,
    recognizedText: Option<string>,
    content: string,
    tags: set<string>,
    createdAt: string)

  /** `m.tags(t1, ..., tn)`: a copy of `m` whose tag set also holds every `ti`; nothing else changes. */
  function WithTags(m: Meme, newTags: seq<string>): (r: Meme)
    ensures forall t :: t in r.tags <==> t in m.tags || t in newTags
    ensures m.tags <= r.tags
    ensures r.id == m.id && r.title == m.title && r.imageUrl == m.imageUrl
    ensures r.originalText == m.originalText && r.recognizedText == m.recognizedText
    ensures r.content == m.content && r.createdAt == m.createdAt
  {
    m.(tags := m.tags + set t | t in newTags)
  }

  /** Adding the same tags a second time changes nothing. */
  lemma WithTagsIdempotent(m: Meme, newTags: seq<string>)
    ensures WithTags(WithTags(m, newTags), newTags) == WithTags(m, newTags)
  {
    var once := WithTags(m, newTags);
    assert WithTags(once, newTags).tags == once.tags;
  }

  /** A tag the meme already has collapses into the existing one: the copy equals the original. */
  lemma WithTagsPresent(m: Meme, t: string)
    requires t in m.tags
    ensures WithTags(m, [t]) == m
  {
    assert WithTags(m, [t]).tags == m.tags;
  }

  /** Adding tags in two calls is the same as adding all of them in one. */
  lemma WithTagsTwice(m: Meme, a: seq<string>, b: seq<string>)
    ensures WithTags(WithTags(m, a), b) == WithTags(m, a + b)
  {
    assert WithTags(WithTags(m, a), b).tags == WithTags(m, a + b).tags;
  }

  /** The response envelope of both the list and the search operation. */
  datatype MemeResponse = MemeResponse(
    data: seq<Meme>,
    total: int,
    page: int,
    limit: int,
    hasMore: bool)
}
