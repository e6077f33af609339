/** `http::Headers` (src/net/headers.cpp): a `std::map` from lower-cased
    header names to values. `set` lower-cases the key and overwrites; `get`
    and `has` lower-case the key and look it up, `get` answering "" for an
    absent key. The lookups are functions of the map so that value-level
    specifications elsewhere can use them; `set` is the method of the class. */
module HeaderMap {
  import opened Text

  type HeaderData = map<string, string>

  /** Every stored name is in canonical (lower-case) form. */
  ghost predicate CanonicalKeys(data: HeaderData) {
    forall k :: k in data ==> Lower(k) == k
  }

  /** `Headers::get`: the value stored under the lower-cased key, or "". */
  function Get(data: HeaderData, key: string): (r: string)
    ensures Lower(key) in data ==> r == data[Lower(key)]
    ensures Lower(key) !in data ==> r == ""
  {
    var k := Lower(key);
    if k in data then data[k] else ""
  }

  /** `Headers::has`: whether the lower-cased key is stored. */
  function Has(data: HeaderData, key: string): (b: bool)
    ensures b <==> Lower(key) in data
    ensures !b ==> Get(data, key) == ""
  {
    Lower(key) in data
  }

  /** The map after `Headers::set(key, value)`. */
  function Put(data: HeaderData, key: string, value: string): HeaderData {
    data[Lower(key) := value]
  }

  /** After `set(key, value)` every spelling of the key that lower-cases alike
      finds `value`; every other name keeps its entry; exactly one name is
      added at most; stored names stay lower-case. */
  lemma {:induction false} PutSpec(data: HeaderData, key: string, value: string)
    ensures Put(data, key, value).Keys == data.Keys + {Lower(key)}
    ensures forall k :: Lower(k) == Lower(key) ==> Has(Put(data, key, value), k) && Get(Put(data, key, value), k) == value
    ensures forall k :: Lower(k) != Lower(key) ==>
              Has(Put(data, key, value), k) == Has(data, k) && Get(Put(data, key, value), k) == Get(data, k)
    ensures forall k :: k in data && k != Lower(key) ==> k in Put(data, key, value) && Put(data, key, value)[k] == data[k]
    ensures CanonicalKeys(data) ==> CanonicalKeys(Put(data, key, value))
  {
    LowerIdempotent(key);
  }

  /** The last `set` wins: a second `set` on a name that lower-cases alike
      replaces the first. */
  lemma {:induction false} PutOverwrites(data: HeaderData, k1: string, v1: string, k2: string, v2: string)
    requires Lower(k1) == Lower(k2)
    ensures Put(Put(data, k1, v1), k2, v2) == Put(data, k2, v2)
  {
  }

  /** `set` on two different names commutes. */
  lemma {:induction false} PutCommutes(data: HeaderData, k1: string, v1: string, k2: string, v2: string)
    requires Lower(k1) != Lower(k2)
    ensures Put(Put(data, k1, v1), k2, v2) == Put(Put(data, k2, v2), k1, v1)
  {
  }

  class Headers {
    var data: HeaderData

    ghost predicate Valid()
      reads this
    {
      CanonicalKeys(data)
    }

    constructor ()
      ensures Valid() && data == map[]
    {
      data := map[];
    }

    /** `Headers::set`: `data[lower_key] = value`. */
    method Set(key: string, value: string)
      requires Valid()
      modifies this
      ensures Valid()
      ensures data == Put(old(data), key, value)
    {
      PutSpec(data, key, value);
      data := Put(data, key, value);
    }
  }
}
