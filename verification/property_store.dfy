/** What saving a parsed page does to the property store. A parser function
    hands the host a list of (property, value) writes; the host replaces the
    page's rows with them.

    The host keeps one value per property: a later write to a property
    replaces an earlier one (`ParserOutput::setProperty` fills a map, and
    `page_props` has one row per page and property). The rest of the
    extension reads properties as if several rows could hold values of the
    same property (`titleHasPagePropValue` counts matching rows). `Stored`
    keeps every value written, which is the store the rest of this model
    reads; `StoredAsWritten` keeps the last one, as the host does. */
module PropertyStore {
  import opened Utils

  /** Every value written to `k`, in the order of the writes. */
  function ValuesOf(writes: seq<(Key, string)>, k: Key): (r: seq<string>)
    ensures forall x :: x in r <==> (k, x) in writes
    ensures |r| <= |writes|
  {
    if |writes| == 0 then []
    else
      var front := writes[..|writes| - 1];
      var last := writes[|writes| - 1];
      assert writes == front + [last];
      ValuesOf(front, k) + (if last.0 == k then [last.1] else [])
  }

  /** Values written in two runs are those of the first run, then those of
      the second. */
  lemma {:induction false} ValuesOfAppend(a: seq<(Key, string)>, b: seq<(Key, string)>, k: Key)
    ensures ValuesOf(a + b, k) == ValuesOf(a, k) + ValuesOf(b, k)
    decreases |b|
  {
    if |b| > 0 {
      AppendFront(a, b);
      ValuesOfAppend(a, b[..|b| - 1], k);
    } else {
      assert a + b == a;
    }
  }

  /** Dropping the last element of `a + b`, with `b` not empty, drops the
      last element of `b`. */
  lemma AppendFront(a: seq<(Key, string)>, b: seq<(Key, string)>)
    requires |b| > 0
    ensures (a + b)[..|a + b| - 1] == a + b[..|b| - 1]
    ensures (a + b)[|a + b| - 1] == b[|b| - 1]
  {
  }

  /** The values of one write. */
  lemma ValuesOfOne(e: (Key, string), k: Key)
    ensures ValuesOf([e], k) == if e.0 == k then [e.1] else []
  {
    assert [e][..0] == [];
  }

  /** A property no write names gets no value. */
  lemma NoValues(writes: seq<(Key, string)>, k: Key)
    requires forall e :: e in writes ==> e.0 != k
    ensures ValuesOf(writes, k) == []
  {
  }

  /** The last of some values, or none. */
  function LastOf(vs: seq<string>): (r: seq<string>)
    ensures |r| <= 1 && (r == [] <==> vs == [])
    ensures r != [] ==> r[0] == vs[|vs| - 1]
  {
    if vs == [] then [] else [vs[|vs| - 1]]
  }

  /** The properties some write names. */
  function WrittenKeys(writes: seq<(Key, string)>): set<Key> {
    set e | e in writes :: e.0
  }

  /** A property is named by some write exactly when it has values. */
  lemma WrittenKeysHaveValues(writes: seq<(Key, string)>, k: Key)
    ensures k in WrittenKeys(writes) <==> ValuesOf(writes, k) != []
  {
    if ValuesOf(writes, k) != [] {
      assert (k, ValuesOf(writes, k)[0]) in writes;
    }
  }

  /** The properties of a page after the writes, every value kept. */
  function Stored(writes: seq<(Key, string)>): (r: map<Key, seq<string>>)
    ensures forall k :: k in r <==> ValuesOf(writes, k) != []
    ensures forall k :: k in r ==> r[k] == ValuesOf(writes, k)
  {
    assert forall k :: k in WrittenKeys(writes) <==> ValuesOf(writes, k) != [] by {
      forall k ensures k in WrittenKeys(writes) <==> ValuesOf(writes, k) != [] {
        WrittenKeysHaveValues(writes, k);
      }
    }
    map k | k in WrittenKeys(writes) :: ValuesOf(writes, k)
  }

  /** The properties of a page after the writes, as the host keeps them: the
      last value written to each property. */
  function StoredAsWritten(writes: seq<(Key, string)>): (r: map<Key, seq<string>>)
    ensures forall k :: k in r <==> ValuesOf(writes, k) != []
    ensures forall k :: k in r ==> r[k] == LastOf(ValuesOf(writes, k))
  {
    assert forall k :: k in WrittenKeys(writes) <==> ValuesOf(writes, k) != [] by {
      forall k ensures k in WrittenKeys(writes) <==> ValuesOf(writes, k) != [] {
        WrittenKeysHaveValues(writes, k);
      }
    }
    map k | k in WrittenKeys(writes) :: LastOf(ValuesOf(writes, k))
  }

  /** The store after saving `name` with the given rows. */
  function SaveRows(w: Wiki, name: PageName, rows: map<Key, seq<string>>): (r: Wiki)
    ensures name in r.pages
    ensures forall p :: p in r.pages <==> p in w.pages || p == name
    ensures r.text == w.text
  {
    Wiki(if name in w.pages then w.pages else w.pages + [name], w.props[name := rows], w.text)
  }

  /** Saving `name` keeping every value written: the page's values are the
      written ones, and no other page changes. */
  function Save(w: Wiki, name: PageName, writes: seq<(Key, string)>): (r: Wiki)
    ensures forall k :: PropValues(r, name, k) == ValuesOf(writes, k)
    ensures forall p, k :: p != name ==> PropValues(r, p, k) == PropValues(w, p, k)
    ensures forall p :: p in r.pages <==> p in w.pages || p == name
  {
    SaveRows(w, name, Stored(writes))
  }

  /** The last of some values, when there are some. */
  lemma LastOfNonEmpty(vs: seq<string>)
    requires |vs| > 0
    ensures LastOf(vs) == [vs[|vs| - 1]]
  {
  }

  /** Saving `name` as the host does: each property keeps only the last value
      written to it, and no other page changes. */
  function SaveAsWritten(w: Wiki, name: PageName, writes: seq<(Key, string)>): (r: Wiki)
    ensures forall k :: PropValues(r, name, k) == LastOf(ValuesOf(writes, k))
    ensures forall p, k :: p != name ==> PropValues(r, p, k) == PropValues(w, p, k)
  {
    SaveRows(w, name, StoredAsWritten(writes))
  }

  /** The two ways of saving agree on every property written at most once. */
  lemma SavesAgreeOnSingleWrites(w: Wiki, name: PageName, writes: seq<(Key, string)>, k: Key)
    requires |ValuesOf(writes, k)| <= 1
    ensures PropValues(Save(w, name, writes), name, k) == PropValues(SaveAsWritten(w, name, writes), name, k)
  {
  }

  /** A flag written as `FlagValue` reads as true once saved, and one never
      written reads as false. */
  lemma SavedFlag(w: Wiki, name: PageName, writes: seq<(Key, string)>, k: Key)
    requires ValuesOf(writes, k) == [FlagValue] || ValuesOf(writes, k) == []
    ensures Truthy(GetProp(Save(w, name, writes), name, k)) <==> ValuesOf(writes, k) != []
  {
  }

  /** A page whose writes name `parent` once as its parent is, once saved, a
      child of `parent`, and the type of `parent` is left as it was. */
  lemma SavedChild(w: Wiki, name: PageName, writes: seq<(Key, string)>, parent: PageName)
    requires ValuesOf(writes, ParentPageKey) == [parent]
    requires parent != name
    ensures name in Children(Save(w, name, writes), parent)
    ensures PropValues(Save(w, name, writes), parent, PageTypeKey) == PropValues(w, parent, PageTypeKey)
  {
    assert HasPropValue(Save(w, name, writes), name, ParentPageKey, parent);
  }
}
