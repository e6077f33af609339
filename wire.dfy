/** The header block shared by both directions of the wire format: writing a
    header map as "name: value\r\n" lines in the map's iteration order, and
    reading such lines back with `std::getline` until an empty line. The
    server (src/net/server.cpp) and the client (src/net/client_impl.cpp) each
    hold their own copy of this code; the copies are identical. */
module Wire {
  import opened Results
  import opened Text
  import opened Streams
  import opened HeaderMap

  // ---------------------------------------------------------------------------
  // std::map<std::string, std::string> iteration order

  /** `a < b` on `std::string`: the first differing character decides, and a
      proper prefix comes first. */
  predicate LexLess(a: string, b: string)
    decreases |a|
  {
    |b| > 0 && (|a| == 0 || a[0] < b[0] || (a[0] == b[0] && LexLess(a[1..], b[1..])))
  }

  lemma {:induction false} LexAsymmetric(a: string, b: string)
    ensures !(LexLess(a, b) && LexLess(b, a))
    decreases |a|
  {
    if |a| > 0 && |b| > 0 && a[0] == b[0] {
      LexAsymmetric(a[1..], b[1..]);
    }
  }

  lemma {:induction false} LexTotal(a: string, b: string)
    ensures a == b || LexLess(a, b) || LexLess(b, a)
    decreases |a|
  {
    if |a| > 0 && |b| > 0 && a[0] == b[0] {
      LexTotal(a[1..], b[1..]);
      if a[1..] == b[1..] {
        assert a == [a[0]] + a[1..] && b == [b[0]] + b[1..];
      }
    }
  }

  lemma {:induction false} LexTransitive(a: string, b: string, c: string)
    requires LexLess(a, b) && LexLess(b, c)
    ensures LexLess(a, c)
    decreases |a|
  {
    if |a| > 0 && a[0] == b[0] && b[0] == c[0] {
      LexTransitive(a[1..], b[1..], c[1..]);
    }
  }

  /** `r` is the least of `keys`. */
  predicate IsLeast(r: string, keys: set<string>) {
    r in keys && forall k :: k in keys && k != r ==> LexLess(r, k)
  }

  /** Every non-empty finite set of strings has a least element. */
  lemma {:induction false} LeastExists(keys: set<string>)
    requires keys != {}
    ensures exists r :: IsLeast(r, keys)
    decreases |keys|
  {
    var x :| x in keys;
    var rest := keys - {x};
    if rest == {} {
      assert keys == {x};
      assert IsLeast(x, keys);
    } else {
      LeastExists(rest);
      var m :| IsLeast(m, rest);
      LexTotal(x, m);
      if LexLess(x, m) {
        forall k | k in keys && k != x ensures LexLess(x, k) {
          if k != m { LexTransitive(x, m, k); }
        }
        assert IsLeast(x, keys);
      } else {
        assert IsLeast(m, keys);
      }
    }
  }

  /** The least key of a non-empty set: the first one a `std::map` visits. */
  function LeastKey(keys: set<string>): (r: string)
    requires keys != {}
    ensures IsLeast(r, keys)
  {
    LeastExists(keys);
    assert forall a, b :: IsLeast(a, keys) && IsLeast(b, keys) ==> a == b by {
      forall a, b | IsLeast(a, keys) && IsLeast(b, keys) ensures a == b {
        LexAsymmetric(a, b);
      }
    }
    var r :| IsLeast(r, keys);
    r
  }

  /** The keys in the order a `std::map` visits them: the least key first,
      then the rest in the same order. */
  function SortedKeys(keys: set<string>): (ks: seq<string>)
    ensures |ks| == |keys|
    ensures forall k :: k in ks <==> k in keys
    decreases |keys|
  {
    if keys == {} then [] else [LeastKey(keys)] + SortedKeys(keys - {LeastKey(keys)})
  }

  /** The visiting order is strictly increasing, so each key comes exactly
      once. */
  lemma {:induction false} SortedKeysSorted(keys: set<string>)
    ensures forall i, j :: 0 <= i < j < |SortedKeys(keys)| ==> LexLess(SortedKeys(keys)[i], SortedKeys(keys)[j])
    decreases |keys|
  {
    if keys != {} {
      var k := LeastKey(keys);
      var rest := SortedKeys(keys - {k});
      var ks := SortedKeys(keys);
      SortedKeysSorted(keys - {k});
      forall i, j | 0 <= i < j < |ks| ensures LexLess(ks[i], ks[j]) {
        if i == 0 {
          assert ks[j] == rest[j - 1] && rest[j - 1] in keys - {k};
        } else {
          assert ks[i] == rest[i - 1] && ks[j] == rest[j - 1];
        }
      }
    }
  }

  // ---------------------------------------------------------------------------
  // Writing headers

  /** One header as `std::getline` gives it back: the written line without
      its final '\n'. */
  function LineText(key: string, value: string): string {
    key + ": " + value + "\r"
  }

  /** One header as written: `key << ": " << value << "\r\n"`. */
  function HeaderLine(key: string, value: string): string {
    LineText(key, value) + "\n"
  }

  /** The entries of `h` for the keys `ks`, in that order. */
  function Entries(h: HeaderData, ks: seq<string>): (es: seq<(string, string)>)
    requires forall k :: k in ks ==> k in h
    ensures |es| == |ks|
    ensures forall i :: 0 <= i < |ks| ==> es[i] == (ks[i], h[ks[i]])
  {
    seq(|ks|, i requires 0 <= i < |ks| => (ks[i], h[ks[i]]))
  }

  /** The entries of `h` in the order a `std::map` visits them. */
  function MapEntries(h: HeaderData): seq<(string, string)> {
    Entries(h, SortedKeys(h.Keys))
  }

  /** The lines for the entries `es`, in that order. */
  function Lines(es: seq<(string, string)>): string {
    if es == [] then "" else HeaderLine(es[0].0, es[0].1) + Lines(es[1..])
  }

  /** Every header of `h` as a line, in map order. */
  function HeaderLines(h: HeaderData): string {
    Lines(MapEntries(h))
  }

  /** The range-for over `headers.data` that writes each header as a line
      after `prefix`. */
  method AppendHeaders(prefix: string, h: HeaderData) returns (out: string)
    ensures out == prefix + HeaderLines(h)
  {
    var es := MapEntries(h);
    out := prefix;
    var i := 0;
    while i < |es|
      invariant 0 <= i <= |es|
      invariant out + Lines(es[i..]) == prefix + Lines(es)
    {
      var line := HeaderLine(es[i].0, es[i].1);
      LinesFrom(es, i);
      assert (out + line) + Lines(es[i + 1..]) == out + (line + Lines(es[i + 1..]));
      out := out + line;
      i := i + 1;
    }
    assert es[i..] == [];
  }

  /** The lines from entry `i` on are the line of entry `i` and the lines
      after it. */
  lemma {:induction false} LinesFrom(es: seq<(string, string)>, i: nat)
    requires i < |es|
    ensures Lines(es[i..]) == HeaderLine(es[i].0, es[i].1) + Lines(es[i + 1..])
  {
    assert es[i..][1..] == es[i + 1..];
  }

  // ---------------------------------------------------------------------------
  // Reading headers

  /** Drop one trailing '\r' (`if (line.back() == '\r') line.pop_back()`). */
  function StripCR(line: string): (r: string)
    ensures line != [] && line[|line| - 1] == '\r' ==> r == line[..|line| - 1]
    ensures (line == [] || line[|line| - 1] != '\r') ==> r == line
  {
    if line != [] && line[|line| - 1] == '\r' then line[..|line| - 1] else line
  }

  /** Drop one leading space (`if (!value.empty() && value[0] == ' ')
      value.erase(0, 1)`). */
  function DropSpace(s: string): (r: string)
    ensures s != [] && s[0] == ' ' ==> r == s[1..]
    ensures (s == [] || s[0] != ' ') ==> r == s
  {
    if s != [] && s[0] == ' ' then s[1..] else s
  }

  /** One header line: after a trailing '\r' is dropped, the name is the text
      before the first ':' and the value the text after it less one leading
      space; a line without ':' gives nothing. */
  function ParseHeaderLine(line: string): (r: Option<(string, string)>)
    ensures r.None? <==> ':' !in StripCR(line)
    ensures r.Some? ==> ':' !in r.value.0
  {
    var l := StripCR(line);
    match FindChar(l, ':', 0)
    case None => None
    case Some(c) => Some((l[..c], DropSpace(l[c + 1..])))
  }

  /** A header line is its name, a ':', and its value, with the one space
      that follows the ':' dropped when there is one. */
  lemma {:induction false} ParseHeaderLineText(line: string)
    requires ParseHeaderLine(line).Some?
    ensures var (k, v) := ParseHeaderLine(line).value;
            StripCR(line) == k + ": " + v ||
            (StripCR(line) == k + ":" + v && (v == [] || v[0] != ' '))
  {
    var l := StripCR(line);
    var c := FindChar(l, ':', 0).value;
    assert l == l[..c] + ":" + l[c + 1..];
  }

  /** A written header line reads back as its name and value. */
  lemma {:induction false} ParseHeaderLineOfWritten(key: string, value: string)
    requires ':' !in key
    ensures ParseHeaderLine(LineText(key, value)) == Some((key, value))
  {
    var line := LineText(key, value);
    var l := key + ": " + value;
    assert StripCR(line) == l;
    assert l[|key|] == ':';
    forall j | 0 <= j < |key| ensures l[j] != ':' {
      assert l[j] == key[j];
    }
    FindCharIs(l, ':', 0, |key|);
    assert l[..|key|] == key;
    assert l[|key| + 1..] == " " + value;
    assert DropSpace(" " + value) == value;
  }

  /** The outcome of one turn of the header loop: it stops with the read
      position at `at`, or goes on from `at` with the map `acc`. */
  datatype Turn = Stop(at: nat) | Go(acc: HeaderData, at: nat)

  /** One turn of the header loop of both codecs: `std::getline` fails, or
      reads an empty line or "\r" and the loop ends; otherwise a line with a
      ':' sets a header and a line without one is skipped. */
  function HeaderTurn(s: string, pos: nat, acc: HeaderData): (t: Turn)
    ensures t.Stop? && pos >= |s| ==> t.at == pos
    ensures t.Go? ==> pos < t.at <= |s|
    ensures t.Stop? ==> t.at <= |s| || t.at == pos
  {
    match GetLine(s, pos)
    case None => Stop(pos)
    case Some((line, next)) =>
      if line == "" || line == "\r" then Stop(next)
      else
        match ParseHeaderLine(line)
        case None => Go(acc, next)
        case Some((k, v)) => Go(Put(acc, k, v), next)
  }

  /** The header loop of both codecs, on the text `s` read from `pos`:
      `while (std::getline(s, line) && !line.empty() && line != "\r")`, each
      line with a ':' setting a header in `acc`. Gives the final map and the
      position after the line that ended the loop. */
  function ParseHeaders(s: string, pos: nat, acc: HeaderData): (r: (HeaderData, nat))
    requires pos <= |s|
    ensures pos <= r.1 <= |s|
    decreases |s| - pos
  {
    match HeaderTurn(s, pos, acc)
    case Stop(at) => (acc, at)
    case Go(acc', at) => ParseHeaders(s, at, acc')
  }

  /** `std::getline` at `pos` over a line `x` followed by '\n'. */
  lemma {:induction false} GetLineAt(s: string, pos: nat, x: string)
    requires pos + |x + "\n"| <= |s| && s[pos..pos + |x + "\n"|] == x + "\n" && '\n' !in x
    ensures GetLine(s, pos) == Some((x, pos + |x + "\n"|))
  {
    assert s[pos + |x|] == (x + "\n")[|x|];
    forall j | pos <= j < pos + |x| ensures s[j] != '\n' {
      assert s[j] == (x + "\n")[j - pos];
    }
    LineEndIs(s, pos, pos + |x|);
    assert s[pos..pos + |x|] == s[pos..pos + |x| + 1][..|x|];
  }

  /** Names and values a header line can carry and still read back. */
  predicate Writable(h: HeaderData) {
    forall k :: k in h ==> Lower(k) == k && ':' !in k && '\n' !in k && '\n' !in h[k]
  }

  /** Entries whose lines read back as they were written. */
  predicate WritableEntries(es: seq<(string, string)>) {
    forall i :: 0 <= i < |es| ==> ':' !in es[i].0 && '\n' !in es[i].0 && '\n' !in es[i].1
  }

  /** The map `acc` after `set` of each of the entries `es`, in order. */
  function Overlay(acc: HeaderData, es: seq<(string, string)>): HeaderData
    decreases |es|
  {
    if es == [] then acc else Overlay(Put(acc, es[0].0, es[0].1), es[1..])
  }

  /** A slice holding `a + b` splits into a slice holding `a` and one
      holding `b`. */
  lemma {:induction false} SliceSplit(s: string, pos: nat, a: string, b: string)
    requires pos + |a| + |b| <= |s| && s[pos..pos + |a| + |b|] == a + b
    ensures s[pos..pos + |a|] == a && s[pos + |a|..pos + |a| + |b|] == b
  {
    assert s[pos..pos + |a|] == s[pos..pos + |a| + |b|][..|a|];
    assert s[pos + |a|..pos + |a| + |b|] == s[pos..pos + |a| + |b|][|a|..];
  }

  /** A written line has no line break before its end. */
  lemma {:induction false} WrittenLine(k: string, v: string)
    requires '\n' !in k && '\n' !in v
    ensures '\n' !in LineText(k, v)
    ensures LineText(k, v) != "" && LineText(k, v) != "\r"
  {
    assert |LineText(k, v)| >= 3;
  }

  /** A written line at `pos` is what `std::getline` reads there. */
  lemma {:induction false} LineAt(s: string, pos: nat, k: string, v: string)
    requires '\n' !in k && '\n' !in v
    requires pos + |HeaderLine(k, v)| <= |s| && s[pos..pos + |HeaderLine(k, v)|] == HeaderLine(k, v)
    ensures GetLine(s, pos) == Some((LineText(k, v), pos + |HeaderLine(k, v)|))
  {
    WrittenLine(k, v);
    GetLineAt(s, pos, LineText(k, v));
  }

  /** The text from `pos` holds the written lines of the entries `es`, one
      after the other, then "\r\n" ending at `end`. */
  predicate TextAt(s: string, pos: nat, es: seq<(string, string)>, end: nat)
    decreases |es|
  {
    if es == [] then end == pos + 2 <= |s| && s[pos..end] == "\r\n"
    else
      var line := HeaderLine(es[0].0, es[0].1);
      pos + |line| <= |s| && s[pos..pos + |line|] == line && TextAt(s, pos + |line|, es[1..], end)
  }

  /** A slice holding the written block is such a text. */
  lemma {:induction false} TextAtOfLines(s: string, pos: nat, es: seq<(string, string)>, end: nat)
    requires end == pos + |Lines(es)| + 2 <= |s|
    requires s[pos..end] == Lines(es) + "\r\n"
    ensures TextAt(s, pos, es, end)
    decreases |es|
  {
    if es != [] {
      var line := HeaderLine(es[0].0, es[0].1);
      var rest := Lines(es[1..]);
      assert Lines(es) + "\r\n" == line + (rest + "\r\n");
      SliceSplit(s, pos, line, rest + "\r\n");
      TextAtOfLines(s, pos + |line|, es[1..], end);
    }
  }

  /** The header loop of both codecs: each header line read from `start` on
      is set on a `Headers` object, until a line ends the block. */
  method ReadHeaders(raw: string, start: nat) returns (h: HeaderData, pos: nat)
    requires start <= |raw|
    ensures h == ParseHeaders(raw, start, map[]).0
    ensures pos == ParseHeaders(raw, start, map[]).1
  {
    var headers := new Headers();
    pos := start;
    while true
      invariant pos <= |raw| && headers.Valid()
      invariant ParseHeaders(raw, pos, headers.data) == ParseHeaders(raw, start, map[])
      decreases |raw| - pos
    {
      var got := GetLine(raw, pos);
      if got.None? {
        ParseHeadersStop(raw, pos, headers.data, pos);
        break;
      }
      var text, next := got.value.0, got.value.1;
      if text == "" || text == "\r" {
        ParseHeadersStop(raw, pos, headers.data, next);
        pos := next;
        break;
      }
      match ParseHeaderLine(text) {
        case None =>
          ParseHeadersGo(raw, pos, headers.data, headers.data, next);
        case Some((k, v)) =>
          ParseHeadersGo(raw, pos, headers.data, Put(headers.data, k, v), next);
          headers.Set(k, v);
      }
      pos := next;
    }
    h := headers.data;
  }

  /** One turn of the header loop on a written line sets its header and
      moves past the line. */
  lemma {:induction false} TurnOfLine(s: string, pos: nat, k: string, v: string, acc: HeaderData)
    requires ':' !in k && '\n' !in k && '\n' !in v
    requires pos + |HeaderLine(k, v)| <= |s| && s[pos..pos + |HeaderLine(k, v)|] == HeaderLine(k, v)
    ensures HeaderTurn(s, pos, acc) == Go(Put(acc, k, v), pos + |HeaderLine(k, v)|)
  {
    WrittenLine(k, v);
    LineAt(s, pos, k, v);
    ParseHeaderLineOfWritten(k, v);
  }

  /** The header loop stops after the empty line "\r". */
  lemma {:induction false} TurnOfEnd(s: string, pos: nat, acc: HeaderData)
    requires pos + 2 <= |s| && s[pos..pos + 2] == "\r\n"
    ensures HeaderTurn(s, pos, acc) == Stop(pos + 2)
  {
    assert s[pos..pos + 2] == "\r" + "\n";
    GetLineAt(s, pos, "\r");
  }

  /** The header loop is its first turn followed by the rest of the loop. */
  lemma {:induction false} ParseHeadersTurn(s: string, pos: nat, acc: HeaderData)
    requires pos <= |s|
    ensures var t := HeaderTurn(s, pos, acc);
            ParseHeaders(s, pos, acc) ==
            (if t.Stop? then (acc, t.at) else ParseHeaders(s, t.at, t.acc))
  {
  }

  /** A turn that goes on leaves the rest to the loop. */
  lemma {:induction false} ParseHeadersGo(s: string, pos: nat, acc: HeaderData, acc': HeaderData, at: nat)
    requires pos <= |s| && HeaderTurn(s, pos, acc) == Go(acc', at)
    ensures ParseHeaders(s, pos, acc).0 == ParseHeaders(s, at, acc').0
    ensures ParseHeaders(s, pos, acc).1 == ParseHeaders(s, at, acc').1
  {
  }

  /** A turn that stops ends the loop. */
  lemma {:induction false} ParseHeadersStop(s: string, pos: nat, acc: HeaderData, at: nat)
    requires pos <= |s| && HeaderTurn(s, pos, acc) == Stop(at)
    ensures ParseHeaders(s, pos, acc).0 == acc
    ensures ParseHeaders(s, pos, acc).1 == at
  {
  }

  /** Reading a written block sets its entries in order and stops at its
      end. */
  lemma {:induction false} BlockRoundTrip(s: string, pos: nat, es: seq<(string, string)>, end: nat, acc: HeaderData)
    requires WritableEntries(es) && TextAt(s, pos, es, end)
    ensures ParseHeaders(s, pos, acc).0 == Overlay(acc, es)
    ensures ParseHeaders(s, pos, acc).1 == end
    decreases |es|
  {
    if es == [] {
      TurnOfEnd(s, pos, acc);
      ParseHeadersStop(s, pos, acc, pos + 2);
    } else {
      var k, v := es[0].0, es[0].1;
      var next := pos + |HeaderLine(k, v)|;
      TextAtFirst(s, pos, es, end);
      TurnOfLine(s, pos, k, v, acc);
      ParseHeadersGo(s, pos, acc, Put(acc, k, v), next);
      WritableTail(es);
      BlockRoundTrip(s, next, es[1..], end, Put(acc, k, v));
    }
  }

  /** A written block starts with the line of its first entry. */
  lemma {:induction false} TextAtFirst(s: string, pos: nat, es: seq<(string, string)>, end: nat)
    requires es != [] && TextAt(s, pos, es, end)
    ensures var line := HeaderLine(es[0].0, es[0].1);
            pos + |line| <= |s| && s[pos..pos + |line|] == line && TextAt(s, pos + |line|, es[1..], end)
  {
  }

  /** The entries after the first of writable entries are writable. */
  lemma {:induction false} WritableTail(es: seq<(string, string)>)
    requires es != [] && WritableEntries(es)
    ensures WritableEntries(es[1..])
  {
    forall i | 0 <= i < |es[1..]| ensures es[1..][i] == es[i + 1] { }
  }

  /** The names of the entries `es`. */
  function Names(es: seq<(string, string)>): set<string> {
    set i | 0 <= i < |es| :: es[i].0
  }

  /** Setting entries with pairwise distinct lower-case names sets exactly
      those names, each to its own value. */
  lemma {:induction false} OverlayAll(es: seq<(string, string)>, acc: HeaderData)
    requires forall i :: 0 <= i < |es| ==> Lower(es[i].0) == es[i].0
    requires forall i, j :: 0 <= i < j < |es| ==> es[i].0 != es[j].0
    ensures Overlay(acc, es).Keys == acc.Keys + Names(es)
    ensures forall i :: 0 <= i < |es| ==> Overlay(acc, es)[es[i].0] == es[i].1
    ensures forall k :: k in acc && k !in Names(es) ==> Overlay(acc, es)[k] == acc[k]
    decreases |es|
  {
    if es != [] {
      var tail := es[1..];
      var acc' := acc[es[0].0 := es[0].1];
      assert Put(acc, es[0].0, es[0].1) == acc';
      assert forall i :: 0 <= i < |tail| ==> tail[i] == es[i + 1];
      OverlayAll(tail, acc');
      assert Names(es) == {es[0].0} + Names(tail) by {
        forall n | n in Names(es) ensures n in {es[0].0} + Names(tail) {
          var i :| 0 <= i < |es| && es[i].0 == n;
          if i > 0 { assert tail[i - 1].0 == n; }
        }
      }
      forall i | 0 <= i < |es| ensures Overlay(acc, es)[es[i].0] == es[i].1 {
        if i == 0 {
          assert es[0].0 !in Names(tail) by {
            forall j | 0 <= j < |tail| ensures tail[j].0 != es[0].0 {
              assert tail[j] == es[j + 1];
            }
          }
        } else {
          assert tail[i - 1] == es[i];
        }
      }
    }
  }

  /** The entries of a map in map order: each is an entry of the map, every
      name of the map appears, and the names are pairwise distinct. */
  lemma {:induction false} MapEntriesOf(h: HeaderData)
    ensures Names(MapEntries(h)) == h.Keys
    ensures forall i :: 0 <= i < |MapEntries(h)| ==> MapEntries(h)[i].0 in h && MapEntries(h)[i].1 == h[MapEntries(h)[i].0]
    ensures forall i, j :: 0 <= i < j < |MapEntries(h)| ==> MapEntries(h)[i].0 != MapEntries(h)[j].0
  {
    MapEntriesNames(h);
    MapEntriesDistinct(h);
  }

  /** The names of the entries are the keys of the map. */
  lemma {:induction false} MapEntriesNames(h: HeaderData)
    ensures Names(MapEntries(h)) == h.Keys
  {
    var ks := SortedKeys(h.Keys);
    var es := MapEntries(h);
    forall i | 0 <= i < |es| ensures es[i].0 in h {
      assert ks[i] in ks;
    }
    forall k | k in h ensures k in Names(es) {
      var i :| 0 <= i < |ks| && ks[i] == k;
      assert es[i].0 == k;
    }
  }

  /** No name comes twice among the entries. */
  lemma {:induction false} MapEntriesDistinct(h: HeaderData)
    ensures forall i, j :: 0 <= i < j < |MapEntries(h)| ==> MapEntries(h)[i].0 != MapEntries(h)[j].0
  {
    var ks := SortedKeys(h.Keys);
    var es := MapEntries(h);
    SortedKeysSorted(h.Keys);
    forall i, j | 0 <= i < j < |es| ensures es[i].0 != es[j].0 {
      LexAsymmetric(ks[i], ks[j]);
    }
  }

  /** The entries of a writable map can be written as lines. */
  lemma {:induction false} WritableMapEntries(h: HeaderData)
    requires Writable(h)
    ensures WritableEntries(MapEntries(h)) && CanonicalKeys(h)
  {
    MapEntriesOf(h);
  }

  /** Setting the entries of a map with lower-case names, in map order, onto
      a map `acc` gives `acc` updated by that map: every name of `h` takes its
      value from `h`, every other name of `acc` keeps its own. */
  lemma {:induction false} OverlayMapEntries(acc: HeaderData, h: HeaderData)
    requires CanonicalKeys(h)
    ensures Overlay(acc, MapEntries(h)) == acc + h
  {
    var es := MapEntries(h);
    MapEntriesOf(h);
    OverlayAll(es, acc);
    var m := Overlay(acc, es);
    forall k | k in h ensures k in m && m[k] == h[k] {
      var i :| 0 <= i < |es| && es[i].0 == k;
    }
    UpdatedBy(m, acc, h);
  }

  /** Setting the entries of a map with lower-case names, in map order, onto
      an empty map gives the map back. */
  lemma {:induction false} OverlayOntoEmpty(h: HeaderData)
    requires CanonicalKeys(h)
    ensures Overlay(map[], MapEntries(h)) == h
  {
    OverlayMapEntries(map[], h);
    assert map[] + h == h;
  }

  /** A map with the keys of `acc` and `h`, the values of `h` on its keys and
      those of `acc` elsewhere is `acc` updated by `h`. */
  lemma {:induction false} UpdatedBy(m: HeaderData, acc: HeaderData, h: HeaderData)
    requires m.Keys == acc.Keys + h.Keys
    requires forall k :: k in h ==> m[k] == h[k]
    requires forall k :: k in acc && k !in h ==> m[k] == acc[k]
    ensures m == acc + h
  {
    var r := acc + h;
    forall k | k in m ensures m[k] == r[k] {
      if k !in h { assert k in acc; }
    }
  }

  /** A written block of lines reads back as its entries, set in order, and
      the loop stops right after the empty line. */
  lemma {:induction false} TextReadBack(s: string, pos: nat, es: seq<(string, string)>, text: string,
                                        acc: HeaderData, m: HeaderData)
    requires WritableEntries(es) && text == Lines(es)
    requires pos + |text| + 2 <= |s|
    requires s[pos..pos + |text| + 2] == text + "\r\n"
    requires Overlay(acc, es) == m
    ensures ParseHeaders(s, pos, acc).0 == m
    ensures ParseHeaders(s, pos, acc).1 == pos + |text| + 2
  {
    TextAtOfLines(s, pos, es, pos + |text| + 2);
    BlockRoundTrip(s, pos, es, pos + |text| + 2, acc);
  }

  /** The header block as written (the lines in map order, then the empty
      line) reads back as the same map, ending right after the empty line. */
  lemma {:induction false} HeadersRoundTrip(s: string, pos: nat, h: HeaderData)
    requires Writable(h)
    requires pos + |HeaderLines(h)| + 2 <= |s|
    requires s[pos..pos + |HeaderLines(h)| + 2] == HeaderLines(h) + "\r\n"
    ensures ParseHeaders(s, pos, map[]).0 == h
    ensures ParseHeaders(s, pos, map[]).1 == pos + |HeaderLines(h)| + 2
  {
    WritableMapEntries(h);
    OverlayOntoEmpty(h);
    TextReadBack(s, pos, MapEntries(h), HeaderLines(h), map[], h);
  }

  // ---------------------------------------------------------------------------
  // A header block cut at the end of the text

  /** Entries whose lines read back as written and carry no '\r' of their
      own. */
  predicate PlainEntries(es: seq<(string, string)>) {
    WritableEntries(es) && forall i :: 0 <= i < |es| ==> '\r' !in es[i].0 && '\r' !in es[i].1
  }

  /** The lines of the entries as they stand before the "\r\n\r\n" that ends
      a header section: the last line without its "\r\n". */
  function CutLines(es: seq<(string, string)>): string
    requires es != []
    decreases |es|
  {
    if |es| == 1 then es[0].0 + ": " + es[0].1
    else HeaderLine(es[0].0, es[0].1) + CutLines(es[1..])
  }

  /** The written lines are the cut lines and the last "\r\n". */
  lemma {:induction false} CutLinesOf(es: seq<(string, string)>)
    requires es != []
    ensures Lines(es) == CutLines(es) + "\r\n"
    decreases |es|
  {
    if |es| == 1 {
      assert es[1..] == [];
    } else {
      CutLinesOf(es[1..]);
    }
  }

  /** `std::getline` on the last line of the text. */
  lemma {:induction false} GetLineLast(s: string, pos: nat)
    requires pos < |s| && '\n' !in s[pos..]
    ensures GetLine(s, pos) == Some((s[pos..], |s|))
  {
    forall j | pos <= j < |s| ensures s[j] != '\n' {
      assert s[j] == s[pos..][j - pos];
    }
    LineEndIs(s, pos, |s|);
  }

  /** A header line without its "\r\n" reads back as its name and value when
      the value does not end with '\r'. */
  lemma {:induction false} ParseHeaderLineOfCut(key: string, value: string)
    requires ':' !in key && (value == [] || value[|value| - 1] != '\r')
    ensures ParseHeaderLine(key + ": " + value) == Some((key, value))
  {
    var l := key + ": " + value;
    assert l[|l| - 1] != '\r' by {
      if value != [] { assert l[|l| - 1] == value[|value| - 1]; }
    }
    assert StripCR(l) == l;
    assert l[|key|] == ':';
    forall j | 0 <= j < |key| ensures l[j] != ':' {
      assert l[j] == key[j];
    }
    FindCharIs(l, ':', 0, |key|);
    assert l[..|key|] == key;
    assert l[|key| + 1..] == " " + value;
    assert DropSpace(" " + value) == value;
  }

  /** The last line of a cut block sets its header and ends the loop at the
      end of the text. */
  lemma {:induction false} CutLastRead(s: string, pos: nat, k: string, v: string, acc: HeaderData)
    requires ':' !in k && '\n' !in k && '\n' !in v && '\r' !in v
    requires pos < |s| && s[pos..] == k + ": " + v
    ensures ParseHeaders(s, pos, acc).0 == Put(acc, k, v)
  {
    var x := k + ": " + v;
    assert '\n' !in x;
    GetLineLast(s, pos);
    assert x != "" && x != "\r" by { assert x[|k|] == ':'; }
    assert v == [] || v[|v| - 1] != '\r' by {
      if v != [] { assert v[|v| - 1] in v; }
    }
    ParseHeaderLineOfCut(k, v);
    ParseHeadersGo(s, pos, acc, Put(acc, k, v), |s|);
    ParseHeadersStop(s, |s|, Put(acc, k, v), |s|);
  }

  /** A block cut at the end of the text reads back as its entries, set in
      order. */
  lemma {:induction false} CutBlockRead(s: string, pos: nat, es: seq<(string, string)>, acc: HeaderData)
    requires es != [] && PlainEntries(es)
    requires pos + |CutLines(es)| == |s| && s[pos..] == CutLines(es)
    ensures ParseHeaders(s, pos, acc).0 == Overlay(acc, es)
    decreases |es|
  {
    var k, v := es[0].0, es[0].1;
    if |es| == 1 {
      CutLastRead(s, pos, k, v, acc);
      assert es[1..] == [];
    } else {
      var line := HeaderLine(k, v);
      var next := pos + |line|;
      assert s[pos..next] == line && s[next..] == CutLines(es[1..]) by {
        assert s[pos..] == line + CutLines(es[1..]);
        assert s[pos..next] == s[pos..][..|line|];
        assert s[next..] == s[pos..][|line|..];
      }
      TurnOfLine(s, pos, k, v, acc);
      ParseHeadersGo(s, pos, acc, Put(acc, k, v), next);
      assert PlainEntries(es[1..]) by {
        forall i | 0 <= i < |es[1..]| ensures es[1..][i] == es[i + 1] { }
      }
      CutBlockRead(s, next, es[1..], Put(acc, k, v));
    }
  }
}
