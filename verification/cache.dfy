/** The persistent URL-to-title cache: a map with lookup, upsert, and a load that never fails. */
module TitleCache {
  import opened Wrappers

  datatype Cache = Cache(data: map<string, string>)

  const Empty := Cache(map[])

  /** The stored title, or None when the URL has no entry. */
  function Get(c: Cache, url: string): (r: Option<string>)
    ensures r.Some? <==> url in c.data
    ensures r.Some? ==> r.value == c.data[url]
  {
    if url in c.data then Some(c.data[url]) else None
  }

  /** Stores one title; no other entry changes and none is removed. */
  function Put(c: Cache, url: string, title: string): (r: Cache)
    ensures Get(r, url) == Some(title)
    ensures forall u :: u != url ==> Get(r, u) == Get(c, u)
    ensures c.data.Keys <= r.data.Keys && r.data.Keys == c.data.Keys + {url}
  {
    Cache(c.data[url := title])
  }

  /** What the cache file can hold when it is read. */
  datatype StoredFile = Missing | Unreadable | Corrupt | Pickled(data: map<string, string>)

  /** Reading the cache file: any failure yields the empty cache instead of an error. */
  function Load(f: StoredFile): (r: Cache)
    ensures f.Pickled? ==> r.data == f.data
    ensures !f.Pickled? ==> r == Empty
  {
    match f
    case Pickled(d) => Cache(d)
    case _ => Empty
  }
}
