/**
 * The header collection a response owns: a case-insensitive, multi-valued
 * mapping from header name to the ordered values received under it.
 * Names are stored case-folded; entries keep their insertion order, which is
 * the order in which they are rendered.
 */
module Headers {
  import opened Options
  import opened Text

  /** One logical header: its case-folded name and its values in order. */
  datatype Entry = Entry(name: string, values: seq<string>)

  datatype HeaderCollection = HeaderCollection(entries: seq<Entry>)

  const Empty: HeaderCollection := HeaderCollection([])

  ghost predicate Distinct(es: seq<Entry>) {
    forall i, j :: 0 <= i < j < |es| ==> es[i].name != es[j].name
  }

  /** Stored names are case-folded and no name is stored twice. */
  ghost predicate Valid(h: HeaderCollection) {
    && (forall i :: 0 <= i < |h.entries| ==> Lower(h.entries[i].name) == h.entries[i].name)
    && Distinct(h.entries)
  }

  function Names(es: seq<Entry>): set<string> {
    set i | 0 <= i < |es| :: es[i].name
  }

  /** Values stored under exactly `key`, or none. */
  function Lookup(es: seq<Entry>, key: string): seq<string> {
    if |es| == 0 then []
    else if es[0].name == key then es[0].values
    else Lookup(es[1..], key)
  }

  /** All values of header `name`, compared case-insensitively; empty when absent. */
  function Get(h: HeaderCollection, name: string): seq<string> {
    Lookup(h.entries, Lower(name))
  }

  /** Replaces the values stored under `key`, keeping its place, or appends a new entry. */
  function Put(es: seq<Entry>, key: string, values: seq<string>): seq<Entry> {
    if |es| == 0 then [Entry(key, values)]
    else if es[0].name == key then [Entry(key, values)] + es[1..]
    else [es[0]] + Put(es[1..], key, values)
  }

  /** Replaces every value of header `name` (case-insensitively) with `values`. */
  function Set(h: HeaderCollection, name: string, values: seq<string>): HeaderCollection {
    HeaderCollection(Put(h.entries, Lower(name), values))
  }

  /** Appends `value` to the values of header `name`. */
  function Add(h: HeaderCollection, name: string, value: string): HeaderCollection {
    Set(h, name, Get(h, name) + [value])
  }

  /** Builds a collection from (name, values) pairs in order; a later pair replaces an earlier one with the same name. */
  function FromPairs(pairs: seq<(string, seq<string>)>): HeaderCollection {
    if |pairs| == 0 then Empty
    else
      var last := pairs[|pairs| - 1];
      Set(FromPairs(pairs[..|pairs| - 1]), last.0, last.1)
  }

  /** The values of the last pair whose name folds to `key`, or none. */
  function LastValues(pairs: seq<(string, seq<string>)>, key: string): seq<string> {
    if |pairs| == 0 then []
    else if Lower(pairs[|pairs| - 1].0) == key then pairs[|pairs| - 1].1
    else LastValues(pairs[..|pairs| - 1], key)
  }

  lemma {:induction false} LookupPut(es: seq<Entry>, key: string, values: seq<string>, other: string)
    ensures Lookup(Put(es, key, values), other) == if other == key then values else Lookup(es, other)
  {
    if |es| > 0 && es[0].name != key {
      LookupPut(es[1..], key, values, other);
    }
  }

  /** Reading a header after setting it gives the new values; every other header is unchanged. */
  lemma GetSet(h: HeaderCollection, name: string, values: seq<string>, other: string)
    ensures Get(Set(h, name, values), other) == if Lower(other) == Lower(name) then values else Get(h, other)
  {
    LookupPut(h.entries, Lower(name), values, Lower(other));
  }

  /** Adding a value appends it to that header's values and leaves the others alone. */
  lemma GetAdd(h: HeaderCollection, name: string, value: string, other: string)
    ensures Get(Add(h, name, value), other) == if Lower(other) == Lower(name) then Get(h, name) + [value] else Get(h, other)
  {
    GetSet(h, name, Get(h, name) + [value], other);
  }

  lemma NamesCons(e: Entry, es: seq<Entry>)
    ensures Names([e] + es) == {e.name} + Names(es)
  {
    var p := [e] + es;
    forall n | n in Names(p) ensures n in {e.name} + Names(es) {
      var i :| 0 <= i < |p| && p[i].name == n;
      if i > 0 { assert p[i] == es[i - 1]; }
    }
    forall n | n in Names(es) ensures n in Names(p) {
      var i :| 0 <= i < |es| && es[i].name == n;
      assert p[i + 1] == es[i];
    }
    assert p[0] == e;
  }

  lemma {:induction false} PutNames(es: seq<Entry>, key: string, values: seq<string>)
    ensures Names(Put(es, key, values)) == Names(es) + {key}
  {
    if |es| == 0 {
      NamesCons(Entry(key, values), []);
    } else if es[0].name == key {
      NamesCons(Entry(key, values), es[1..]);
      NamesCons(es[0], es[1..]);
      assert es == [es[0]] + es[1..];
    } else {
      PutNames(es[1..], key, values);
      NamesCons(es[0], Put(es[1..], key, values));
      NamesCons(es[0], es[1..]);
      assert es == [es[0]] + es[1..];
    }
  }

  lemma {:induction false} PutDistinct(es: seq<Entry>, key: string, values: seq<string>)
    requires Distinct(es)
    ensures Distinct(Put(es, key, values))
  {
    var p := Put(es, key, values);
    if |es| > 0 && es[0].name != key {
      var q := Put(es[1..], key, values);
      PutDistinct(es[1..], key, values);
      PutNames(es[1..], key, values);
      forall j | 0 <= j < |es[1..]| ensures es[1..][j].name != es[0].name {
        assert es[1..][j] == es[j + 1];
      }
      assert es[0].name !in Names(es[1..]);
      forall i, j | 0 <= i < j < |p| ensures p[i].name != p[j].name {
        if i == 0 { assert p[j] == q[j - 1]; assert q[j - 1].name in Names(q); }
        else { assert p[i] == q[i - 1] && p[j] == q[j - 1]; }
      }
    } else if |es| > 0 {
      forall i, j | 0 <= i < j < |p| ensures p[i].name != p[j].name {
        assert p[j] == es[j];
        if i > 0 { assert p[i] == es[i]; }
      }
    }
  }

  /** Setting a header keeps the collection well formed. */
  lemma SetValid(h: HeaderCollection, name: string, values: seq<string>)
    requires Valid(h)
    ensures Valid(Set(h, name, values))
  {
    var key := Lower(name);
    PutNames(h.entries, key, values);
    PutDistinct(h.entries, key, values);
    var p := Set(h, name, values).entries;
    forall i | 0 <= i < |p| ensures Lower(p[i].name) == p[i].name {
      assert p[i].name in Names(p);
      if p[i].name != key {
        var j :| 0 <= j < |h.entries| && h.entries[j].name == p[i].name;
      } else {
        assert Lower(key) == key;
      }
    }
  }

  /** A collection built from pairs is well formed and holds, for each name, the values of the last pair with that name. */
  lemma {:induction false} FromPairsGet(pairs: seq<(string, seq<string>)>, name: string)
    ensures Valid(FromPairs(pairs))
    ensures Get(FromPairs(pairs), name) == LastValues(pairs, Lower(name))
  {
    if |pairs| > 0 {
      var init := pairs[..|pairs| - 1];
      var last := pairs[|pairs| - 1];
      FromPairsGet(init, name);
      SetValid(FromPairs(init), last.0, last.1);
      GetSet(FromPairs(init), last.0, last.1, name);
    }
  }

  /**
   * The canonical spelling a name is rendered with: the first letter and
   * every letter after a dash in upper case (`content-type` gives `Content-Type`).
   */
  function Canonical(name: string): (r: string)
    ensures |r| == |name|
  {
    seq(|name|, i requires 0 <= i < |name| =>
      if i == 0 || name[i - 1] == '-' then UpperChar(name[i]) else name[i])
  }

  /**
   * Each canonical character folds like the original one; a character that
   * starts a word is not a lower-case letter, and any other is kept as stored.
   */
  lemma CanonicalChar(name: string, i: int)
    requires 0 <= i < |name|
    ensures LowerChar(Canonical(name)[i]) == LowerChar(name[i])
    ensures i == 0 || name[i - 1] == '-' ==> !('a' <= Canonical(name)[i] <= 'z')
    ensures !(i == 0 || name[i - 1] == '-') ==> Canonical(name)[i] == name[i]
  {
    if i == 0 || name[i - 1] == '-' {
      assert Canonical(name)[i] == UpperChar(name[i]);
    } else {
      assert Canonical(name)[i] == name[i];
    }
  }

  /**
   * Canonical spelling only changes case, so it names the same header. For a
   * stored (case-folded) name, exactly the letters that start a word are
   * upper case in it: `content-type` gives `Content-Type`.
   */
  lemma CanonicalSameName(name: string)
    ensures Lower(Canonical(name)) == Lower(name)
    ensures Lower(name) == name ==> forall i :: 0 <= i < |name| ==>
      ('A' <= Canonical(name)[i] <= 'Z' <==> 'a' <= name[i] <= 'z' && (i == 0 || name[i - 1] == '-'))
  {
    var c := Canonical(name);
    forall i | 0 <= i < |name|
      ensures LowerChar(c[i]) == LowerChar(name[i])
      ensures Lower(name) == name ==>
        ('A' <= c[i] <= 'Z' <==> 'a' <= name[i] <= 'z' && (i == 0 || name[i - 1] == '-'))
    {
      CanonicalChar(name, i);
      if Lower(name) == name {
        assert name[i] == LowerChar(name[i]);
      }
    }
    LowerEqual(c, name);
  }

  /** Looking a header up by its canonical spelling finds it. */
  lemma GetCanonical(h: HeaderCollection, name: string)
    ensures Get(h, Canonical(name)) == Get(h, name)
  {
    CanonicalSameName(name);
  }

  /** In a collection with distinct names, looking up a stored name finds that entry's values. */
  lemma {:induction false} LookupDistinct(es: seq<Entry>, i: int)
    requires Distinct(es) && 0 <= i < |es|
    ensures Lookup(es, es[i].name) == es[i].values
  {
    if i > 0 {
      assert es[0].name != es[i].name;
      assert Distinct(es[1..]) by {
        forall a, b | 0 <= a < b < |es[1..]| ensures es[1..][a].name != es[1..][b].name {
          assert es[1..][a] == es[a + 1] && es[1..][b] == es[b + 1];
        }
      }
      assert es[1..][i - 1] == es[i];
      LookupDistinct(es[1..], i - 1);
    }
  }

  /**
   * Every rendered header reads back: in a well-formed collection, looking up
   * the canonical name an entry is rendered with gives exactly the values
   * rendered under it.
   */
  lemma EntryReadBack(h: HeaderCollection, i: int)
    requires Valid(h) && 0 <= i < |h.entries|
    ensures Get(h, Canonical(h.entries[i].name)) == h.entries[i].values
  {
    GetCanonical(h, h.entries[i].name);
    LookupDistinct(h.entries, i);
  }

  /** `Name: value` for each value of one entry, in order. */
  function EntryLines(e: Entry): (lines: seq<string>)
    ensures |lines| == |e.values|
  {
    seq(|e.values|, i requires 0 <= i < |e.values| => Canonical(e.name) + ": " + e.values[i])
  }

  /** One line per header value, header by header in insertion order. */
  function Lines(es: seq<Entry>): seq<string> {
    if |es| == 0 then [] else EntryLines(es[0]) + Lines(es[1..])
  }

  function ValueCount(es: seq<Entry>): nat {
    if |es| == 0 then 0 else |es[0].values| + ValueCount(es[1..])
  }

  /** Every value is rendered on a line of its own: as many lines as values. */
  lemma {:induction false} LinesCount(es: seq<Entry>)
    ensures |Lines(es)| == ValueCount(es)
  {
    if |es| > 0 { LinesCount(es[1..]); }
  }
}
