/** General helpers of `dagster._utils`: hashable normal forms, dictionary helpers, the
    camel-case converter, Python truthiness helpers, library-version mapping, submodule
    renaming and the counter. Python dictionaries keep insertion order, so a dictionary is
    a sequence of entries with distinct keys. */
module Utils {
  import opened Wrappers
  import opened Text

  /** The Python values these helpers see. A `PyCollection` is a list, tuple or set, given
      in iteration order. */
  datatype PyValue =
    | PyNone
    | PyBool(b: bool)
    | PyInt(i: int)
    | PyStr(s: string)
    | PyDict(entries: seq<(string, PyValue)>)
    | PyCollection(kind: CollectionKind, items: seq<PyValue>)

  datatype CollectionKind = ListKind | TupleKind | SetKind

  function Tuple(items: seq<PyValue>): PyValue {
    PyCollection(TupleKind, items)
  }

  function Keys(entries: seq<(string, PyValue)>): seq<string> {
    seq(|entries|, i requires 0 <= i < |entries| => entries[i].0)
  }

  predicate DistinctKeys(entries: seq<(string, PyValue)>) {
    forall i, j | 0 <= i < j < |entries| :: entries[i].0 != entries[j].0
  }

  // ---------------------------------------------------------------- make_hashable

  /** Entries in strictly ascending key order. */
  predicate SortedByKey(entries: seq<(string, PyValue)>) {
    forall i, j | 0 <= i < j < |entries| :: LexLess(entries[i].0, entries[j].0)
  }

  /** Inserts an entry into a key-sorted list of entries. */
  function InsertByKey(e: (string, PyValue), sorted: seq<(string, PyValue)>): (r: seq<(string, PyValue)>)
    ensures multiset(r) == multiset(sorted) + multiset{e}
    ensures |r| == |sorted| + 1
  {
    if sorted == [] || LexLessEq(e.0, sorted[0].0) then [e] + sorted
    else
      assert sorted == [sorted[0]] + sorted[1..];
      [sorted[0]] + InsertByKey(e, sorted[1..])
  }

  lemma {:induction false} InsertByKeySorted(e: (string, PyValue), sorted: seq<(string, PyValue)>)
    requires SortedByKey(sorted)
    requires forall i | 0 <= i < |sorted| :: sorted[i].0 != e.0
    ensures SortedByKey(InsertByKey(e, sorted))
  {
    var r := InsertByKey(e, sorted);
    if sorted == [] {
    } else if LexLessEq(e.0, sorted[0].0) {
      forall j | 1 <= j < |r| ensures LexLess(e.0, r[j].0) {
        if j > 1 {
          LexTransitive(e.0, sorted[0].0, sorted[j - 1].0);
        }
      }
    } else {
      InsertByKeySorted(e, sorted[1..]);
      var tail := InsertByKey(e, sorted[1..]);
      LexTotal(e.0, sorted[0].0);
      forall j | 0 <= j < |tail| ensures LexLess(sorted[0].0, tail[j].0) {
        assert tail[j] in multiset(tail);
        assert tail[j] in multiset(sorted[1..]) + multiset{e};
        if tail[j] != e {
          assert tail[j] in sorted[1..];
          var k :| 0 <= k < |sorted[1..]| && sorted[1..][k] == tail[j];
          assert sorted[k + 1] == tail[j];
        }
      }
    }
  }

  /** Python's `sorted` on `(key, value)` pairs with distinct keys: ordered by key. */
  function SortByKey(entries: seq<(string, PyValue)>): (r: seq<(string, PyValue)>)
    ensures multiset(r) == multiset(entries) && |r| == |entries|
  {
    if entries == [] then []
    else
      assert entries == [entries[0]] + entries[1..];
      InsertByKey(entries[0], SortByKey(entries[1..]))
  }

  lemma {:induction false} SortByKeySorted(entries: seq<(string, PyValue)>)
    requires DistinctKeys(entries)
    ensures SortedByKey(SortByKey(entries))
  {
    if entries != [] {
      var rest := SortByKey(entries[1..]);
      assert DistinctKeys(entries[1..]) by {
        forall i, j | 0 <= i < j < |entries[1..]| ensures entries[1..][i].0 != entries[1..][j].0 {
          assert entries[1..][i] == entries[i + 1] && entries[1..][j] == entries[j + 1];
        }
      }
      SortByKeySorted(entries[1..]);
      forall i | 0 <= i < |rest| ensures rest[i].0 != entries[0].0 {
        assert rest[i] in multiset(entries[1..]);
        var k :| 0 <= k < |entries[1..]| && entries[1..][k] == rest[i];
        assert entries[k + 1] == rest[i];
      }
      InsertByKeySorted(entries[0], rest);
    }
  }

  /** `make_hashable(value)`: a dict becomes the tuple of its `(key, make_hashable(value))`
      pairs sorted by key; a list, tuple or set the tuple of its converted elements in
      iteration order; anything else is returned as it is. */
  function MakeHashable(v: PyValue): (r: PyValue)
    decreases v
    ensures v.PyDict? ==> r.PyCollection? && r.kind == TupleKind && |r.items| == |v.entries|
    ensures v.PyCollection? ==> r.PyCollection? && r.kind == TupleKind && |r.items| == |v.items|
    ensures !v.PyDict? && !v.PyCollection? ==> r == v
  {
    match v
    case PyDict(entries) =>
      var converted := seq(|entries|, i requires 0 <= i < |entries| => (entries[i].0, MakeHashable(entries[i].1)));
      Tuple(PairTuples(SortByKey(converted)))
    case PyCollection(_, items) =>
      Tuple(seq(|items|, i requires 0 <= i < |items| => MakeHashable(items[i])))
    case _ => v
  }

  /** Each `(key, value)` entry as a two-element tuple. */
  function PairTuples(entries: seq<(string, PyValue)>): (r: seq<PyValue>)
    ensures |r| == |entries|
    ensures forall i | 0 <= i < |r| :: r[i] == Tuple([PyStr(entries[i].0), entries[i].1])
  {
    seq(|entries|, i requires 0 <= i < |entries| => Tuple([PyStr(entries[i].0), entries[i].1]))
  }

  /** A value built only from scalars and tuples. */
  predicate IsHashable(v: PyValue) {
    match v
    case PyDict(_) => false
    case PyCollection(kind, items) => kind == TupleKind && forall i | 0 <= i < |items| :: IsHashable(items[i])
    case _ => true
  }

  /** The dict case: one pair per entry, ascending by key, each value converted. */
  lemma MakeHashableDict(entries: seq<(string, PyValue)>)
    requires DistinctKeys(entries)
    ensures var r := MakeHashable(PyDict(entries));
      && r.PyCollection? && r.kind == TupleKind && |r.items| == |entries|
      && (forall i | 0 <= i < |entries| :: Tuple([PyStr(entries[i].0), MakeHashable(entries[i].1)]) in r.items)
      && (forall i, j | 0 <= i < j < |r.items| ::
            r.items[i].items[0].PyStr? && r.items[j].items[0].PyStr? && LexLess(r.items[i].items[0].s, r.items[j].items[0].s))
  {
    var converted := seq(|entries|, i requires 0 <= i < |entries| => (entries[i].0, MakeHashable(entries[i].1)));
    assert DistinctKeys(converted);
    SortByKeySorted(converted);
    var sorted := SortByKey(converted);
    forall i | 0 <= i < |entries| ensures Tuple([PyStr(entries[i].0), MakeHashable(entries[i].1)]) in PairTuples(sorted) {
      assert converted[i] in multiset(sorted);
      var k :| 0 <= k < |sorted| && sorted[k] == converted[i];
      assert PairTuples(sorted)[k] == Tuple([PyStr(entries[i].0), MakeHashable(entries[i].1)]);
    }
  }

  /** The result of `make_hashable` is hashable. */
  lemma {:induction false} MakeHashableIsHashable(v: PyValue)
    ensures IsHashable(MakeHashable(v))
    decreases v
  {
    match v
    case PyDict(entries) =>
      var converted := seq(|entries|, i requires 0 <= i < |entries| => (entries[i].0, MakeHashable(entries[i].1)));
      var sorted := SortByKey(converted);
      forall k | 0 <= k < |sorted| ensures IsHashable(sorted[k].1) {
        assert sorted[k] in multiset(converted);
        var i :| 0 <= i < |converted| && converted[i] == sorted[k];
        MakeHashableIsHashable(entries[i].1);
      }
    case PyCollection(_, items) =>
      forall i | 0 <= i < |items| ensures IsHashable(MakeHashable(items[i])) {
        MakeHashableIsHashable(items[i]);
      }
    case _ =>
  }

  /** A hashable value is its own normal form, so `make_hashable` is idempotent. */
  lemma {:induction false} MakeHashableFixesHashable(v: PyValue)
    requires IsHashable(v)
    ensures MakeHashable(v) == v
    decreases v
  {
    match v
    case PyCollection(_, items) =>
      forall i | 0 <= i < |items| ensures MakeHashable(items[i]) == items[i] {
        MakeHashableFixesHashable(items[i]);
      }
      assert MakeHashable(v).items == items;
    case _ =>
  }

  lemma MakeHashableIdempotent(v: PyValue)
    ensures MakeHashable(MakeHashable(v)) == MakeHashable(v)
  {
    MakeHashableIsHashable(v);
    MakeHashableFixesHashable(MakeHashable(v));
  }

  /** A list and a set with the same elements in the same iteration order have the same
      normal form: only the kind of collection is forgotten. */
  lemma MakeHashableForgetsKind(k1: CollectionKind, k2: CollectionKind, items: seq<PyValue>)
    ensures MakeHashable(PyCollection(k1, items)) == MakeHashable(PyCollection(k2, items))
    ensures var r := MakeHashable(PyCollection(k1, items));
      && r.PyCollection? && r.kind == TupleKind && |r.items| == |items|
      && forall i | 0 <= i < |items| :: r.items[i] == MakeHashable(items[i])
  {
  }

  // ---------------------------------------------------------------- dictionary helpers

  /** `dict_without_keys(ddict, *keys)`: the entries whose key is not among `keys`, in order. */
  function DictWithoutKeys(entries: seq<(string, PyValue)>, keys: seq<string>): (r: seq<(string, PyValue)>)
    ensures forall e :: e in r <==> e in entries && e.0 !in keys
    ensures |r| <= |entries|
  {
    if entries == [] then []
    else
      var rest := DictWithoutKeys(entries[1..], keys);
      if entries[0].0 in keys then rest else [entries[0]] + rest
  }

  /** Removing keys in two rounds is removing them all at once; removing none keeps the
      dictionary. */
  lemma {:induction false} DictWithoutKeysCompose(entries: seq<(string, PyValue)>, a: seq<string>, b: seq<string>)
    ensures DictWithoutKeys(DictWithoutKeys(entries, a), b) == DictWithoutKeys(entries, a + b)
    ensures DictWithoutKeys(entries, []) == entries
  {
    if entries != [] {
      DictWithoutKeysCompose(entries[1..], a, b);
    }
  }

  datatype CheckError = CheckError(message: string)

  /** `ensure_single_item(ddict)`: the only `(key, value)` pair, or a check error for any
      other size. */
  function EnsureSingleItem<K, V>(d: map<K, V>): (r: Result<(K, V), CheckError>)
    ensures r.Success? <==> |d| == 1
    ensures r.Success? ==> d.Keys == {r.value.0} && d[r.value.0] == r.value.1
  {
    if |d| != 1 then Failure(CheckError("Expected dict with single item"))
    else
      var k :| k in d;
      assert d.Keys == {k} by {
        assert |d.Keys| == 1;
        assert |d.Keys - {k}| == 0;
      }
      Success((k, d[k]))
  }

  // ---------------------------------------------------------------- camelcase

  predicate IsLeadingSeparator(c: char) {
    c == '-' || c == '_' || c == '.'
  }

  /** `[\-_\.\s]`: a separator inside the string (Python's `\s` is `str.isspace`). */
  predicate IsSeparator(c: char) {
    IsLeadingSeparator(c) || IsSpace(c)
  }

  predicate IsAsciiLower(c: char) {
    'a' <= c <= 'z'
  }

  /** `str.upper` on a single character, for the ASCII letters. */
  function Upper(c: char): (r: char)
    ensures IsAsciiLower(c) ==> 'A' <= r <= 'Z'
    ensures !IsAsciiLower(c) ==> r == c
  {
    if IsAsciiLower(c) then (c as int - 32) as char else c
  }

  /** `re.sub(r"[\-_\.\s]([a-z])", upper-case the letter, s)`: left to right, without overlaps. */
  function JoinWords(s: string): (r: string)
    ensures |r| <= |s|
  {
    if |s| >= 2 && IsSeparator(s[0]) && IsAsciiLower(s[1]) then [Upper(s[1])] + JoinWords(s[2..])
    else if s == [] then []
    else [s[0]] + JoinWords(s[1..])
  }

  /** `camelcase(string)`. */
  function Camelcase(s: string): (r: string)
    ensures s == [] ==> r == []
  {
    var t := if s != [] && IsLeadingSeparator(s[0]) then s[1..] else s;
    if t == [] then t else [Upper(t[0])] + JoinWords(t[1..])
  }

  /** No separator in the output is followed by a lower-case ASCII letter. */
  predicate NoSeparatorBeforeLower(s: string) {
    forall i | 0 <= i < |s| - 1 :: !(IsSeparator(s[i]) && IsAsciiLower(s[i + 1]))
  }

  lemma {:induction false} JoinWordsLeavesNoSeparatorBeforeLower(s: string)
    ensures NoSeparatorBeforeLower(JoinWords(s))
    ensures JoinWords(s) != [] ==> s != [] && (!IsAsciiLower(JoinWords(s)[0]) || JoinWords(s)[0] == s[0])
  {
    var r := JoinWords(s);
    if |s| >= 2 && IsSeparator(s[0]) && IsAsciiLower(s[1]) {
      JoinWordsLeavesNoSeparatorBeforeLower(s[2..]);
    } else if s != [] {
      var rest := JoinWords(s[1..]);
      JoinWordsLeavesNoSeparatorBeforeLower(s[1..]);
      if rest != [] && IsSeparator(s[0]) {
        assert !IsAsciiLower(rest[0]);
      }
      assert forall i | 1 <= i < |r| - 1 :: r[i] == rest[i - 1] && r[i + 1] == rest[i];
    }
  }

  /** Joining words twice is joining them once. */
  lemma {:induction false} JoinWordsIdempotent(s: string)
    requires NoSeparatorBeforeLower(s)
    ensures JoinWords(s) == s
  {
    if s != [] {
      assert NoSeparatorBeforeLower(s[1..]) by {
        forall i | 0 <= i < |s[1..]| - 1 ensures !(IsSeparator(s[1..][i]) && IsAsciiLower(s[1..][i + 1])) {
          assert s[1..][i] == s[i + 1] && s[1..][i + 1] == s[i + 2];
        }
      }
      JoinWordsIdempotent(s[1..]);
    }
  }

  lemma CamelcaseResult(s: string)
    ensures var r := Camelcase(s);
      r != [] ==> NoSeparatorBeforeLower(r[1..]) && JoinWords(r[1..]) == r[1..]
  {
    var t := if s != [] && IsLeadingSeparator(s[0]) then s[1..] else s;
    if t != [] {
      JoinWordsLeavesNoSeparatorBeforeLower(t[1..]);
      JoinWordsIdempotent(JoinWords(t[1..]));
      assert Camelcase(s)[1..] == JoinWords(t[1..]);
    }
  }

  /** Position `i` of `s` starts a match of the pattern `[\-_\.\s]([a-z])`: a separator
      directly followed by a lower-case ASCII letter. Since a lower-case letter is never a
      separator, two matches never overlap and the left-to-right scan finds every one. */
  predicate MatchAt(s: string, i: int) {
    0 <= i && i + 1 < |s| && IsSeparator(s[i]) && IsAsciiLower(s[i + 1])
  }

  /** The character position `i` of `s` turns into when it is kept: upper-cased right
      after a matched separator, unchanged elsewhere. */
  function KeptChar(s: string, i: int): (c: char)
    requires 0 <= i < |s|
    ensures !MatchAt(s, i - 1) ==> c == s[i]
    ensures MatchAt(s, i - 1) ==> 'A' <= c <= 'Z' && c as int == s[i] as int - 32
  {
    if MatchAt(s, i - 1) then Upper(s[i]) else s[i]
  }

  /** The positions of `s` from `k` on that are not a matched separator, in increasing order. */
  function KeptFrom(s: string, k: nat): (ks: seq<nat>)
    requires k <= |s|
    decreases |s| - k
    ensures forall j | 0 <= j < |ks| :: k <= ks[j] < |s| && !MatchAt(s, ks[j])
  {
    if k == |s| then []
    else if MatchAt(s, k) then KeptFrom(s, k + 1)
    else [k] + KeptFrom(s, k + 1)
  }

  /** `KeptFrom` is increasing. */
  lemma {:induction false} KeptFromOrdered(s: string, k: nat)
    requires k <= |s|
    decreases |s| - k
    ensures forall j, j' | 0 <= j < j' < |KeptFrom(s, k)| :: KeptFrom(s, k)[j] < KeptFrom(s, k)[j']
  {
    if k < |s| && !MatchAt(s, k) {
      KeptFromOrdered(s, k + 1);
      var rest := KeptFrom(s, k + 1);
      var ks := [k] + rest;
      assert KeptFrom(s, k) == ks;
      forall j, j' | 0 <= j < j' < |ks| ensures ks[j] < ks[j'] {
        assert ks[j'] == rest[j' - 1] && k + 1 <= rest[j' - 1];
        if j > 0 {
          assert ks[j] == rest[j - 1] && rest[j - 1] < rest[j' - 1];
        }
      }
    } else if k < |s| {
      KeptFromOrdered(s, k + 1);
      assert KeptFrom(s, k) == KeptFrom(s, k + 1);
    }
  }

  /** `KeptFrom` leaves out no unmatched position. */
  lemma {:induction false} KeptFromComplete(s: string, k: nat)
    requires k <= |s|
    decreases |s| - k
    ensures forall i | k <= i < |s| && !MatchAt(s, i) :: i in KeptFrom(s, k)
  {
    if k < |s| {
      KeptFromComplete(s, k + 1);
      var rest := KeptFrom(s, k + 1);
      if !MatchAt(s, k) {
        assert KeptFrom(s, k) == [k] + rest;
      } else {
        assert KeptFrom(s, k) == rest;
      }
    }
  }

  /** One step of the substitution where position `k` starts a match. */
  lemma JoinWordsFromMatch(s: string, k: nat, rest: string, ks: seq<nat>)
    requires k + 1 < |s| && MatchAt(s, k)
    requires JoinWords(s[k..]) == [Upper(s[k + 1])] + rest
    requires KeptFrom(s, k) == [k + 1] + ks
    requires |rest| == |ks| && forall j | 0 <= j < |ks| :: k + 2 <= ks[j] < |s| && rest[j] == KeptChar(s, ks[j])
    ensures var r, all := JoinWords(s[k..]), KeptFrom(s, k);
      |r| == |all| && forall j | 0 <= j < |r| :: r[j] == KeptChar(s, all[j])
  {
    var r, all := JoinWords(s[k..]), KeptFrom(s, k);
    forall j | 0 <= j < |r| ensures r[j] == KeptChar(s, all[j]) {
      if j > 0 {
        assert r[j] == rest[j - 1] && all[j] == ks[j - 1];
      }
    }
  }

  /** One step of the substitution where position `k` is kept as it is. */
  lemma JoinWordsFromKeep(s: string, k: nat, rest: string, ks: seq<nat>)
    requires k < |s| && !MatchAt(s, k) && !MatchAt(s, k - 1)
    requires JoinWords(s[k..]) == [s[k]] + rest
    requires KeptFrom(s, k) == [k] + ks
    requires |rest| == |ks| && forall j | 0 <= j < |ks| :: k + 1 <= ks[j] < |s| && rest[j] == KeptChar(s, ks[j])
    ensures var r, all := JoinWords(s[k..]), KeptFrom(s, k);
      |r| == |all| && forall j | 0 <= j < |r| :: r[j] == KeptChar(s, all[j])
  {
    var r, all := JoinWords(s[k..]), KeptFrom(s, k);
    forall j | 0 <= j < |r| ensures r[j] == KeptChar(s, all[j]) {
      if j > 0 {
        assert r[j] == rest[j - 1] && all[j] == ks[j - 1];
      }
    }
  }

  lemma {:induction false} JoinWordsFrom(s: string, k: nat)
    requires k <= |s|
    requires !MatchAt(s, k - 1)
    decreases |s| - k
    ensures var r, ks := JoinWords(s[k..]), KeptFrom(s, k);
      |r| == |ks| && forall j | 0 <= j < |r| :: r[j] == KeptChar(s, ks[j])
  {
    if k < |s| {
      if MatchAt(s, k) {
        assert s[k..][2..] == s[k + 2..];
        assert !MatchAt(s, k + 1);
        JoinWordsFrom(s, k + 2);
        assert KeptFrom(s, k + 1) == [k + 1] + KeptFrom(s, k + 2);
        JoinWordsFromMatch(s, k, JoinWords(s[k + 2..]), KeptFrom(s, k + 2));
      } else {
        assert s[k..][1..] == s[k + 1..];
        JoinWordsFrom(s, k + 1);
        JoinWordsFromKeep(s, k, JoinWords(s[k + 1..]), KeptFrom(s, k + 1));
      }
    }
  }

  /** The substitution, position by position: the output is the characters of `s` that
      are not a matched separator, in their order, each upper-cased when a matched
      separator stood right before it. */
  lemma JoinWordsByPosition(s: string)
    ensures var r, ks := JoinWords(s), KeptFrom(s, 0);
      && |r| == |ks|
      && (forall j | 0 <= j < |r| :: r[j] == KeptChar(s, ks[j]))
      && (forall i | 0 <= i < |s| :: i in ks <==> !MatchAt(s, i))
  {
    assert s[0..] == s;
    JoinWordsFrom(s, 0);
    KeptFromOrdered(s, 0);
    KeptFromComplete(s, 0);
  }

  /** `camelcase`, position by position: one leading `-`, `_` or `.` is dropped; the
      first remaining character is upper-cased; the rest is the substitution above. */
  lemma CamelcaseByPosition(s: string)
    ensures var r := Camelcase(s);
      var t := if s != [] && IsLeadingSeparator(s[0]) then s[1..] else s;
      && (t == [] <==> r == [])
      && (t != [] ==>
            var u, ks := t[1..], KeptFrom(t[1..], 0);
            && |r| == 1 + |ks|
            && r[0] == Upper(t[0])
            && (forall j | 0 <= j < |ks| :: r[j + 1] == KeptChar(u, ks[j]))
            && (forall i | 0 <= i < |u| :: i in ks <==> !MatchAt(u, i)))
  {
    var t := if s != [] && IsLeadingSeparator(s[0]) then s[1..] else s;
    if t != [] {
      JoinWordsByPosition(t[1..]);
    }
  }

  /** Only the first character is stripped: a string starting with two separators keeps
      the second, which is then the first character of the result. */
  lemma CamelcaseStripsOneSeparator(s: string)
    requires |s| >= 2 && IsLeadingSeparator(s[0]) && IsLeadingSeparator(s[1])
    ensures Camelcase(s)[0] == s[1]
  {
  }

  // ---------------------------------------------------------------- truthiness

  /** Python's `bool(v)`. */
  predicate Truthy(v: PyValue) {
    match v
    case PyNone => false
    case PyBool(b) => b
    case PyInt(i) => i != 0
    case PyStr(s) => s != ""
    case PyDict(entries) => entries != []
    case PyCollection(_, items) => items != []
  }

  /** `xor(a, b)`. */
  function Xor(a: PyValue, b: PyValue): (r: bool)
    ensures r <==> (Truthy(a) && !Truthy(b)) || (!Truthy(a) && Truthy(b))
  {
    Truthy(a) != Truthy(b)
  }

  lemma XorSymmetricAndIrreflexive(a: PyValue, b: PyValue)
    ensures Xor(a, b) == Xor(b, a)
    ensures !Xor(a, a)
    ensures Xor(a, PyNone) == Truthy(a)
  {
  }

  /** `all_none(kwargs)`: an early-exit scan over the values. */
  method AllNone(kwargs: seq<(string, PyValue)>) returns (r: bool)
    ensures r <==> forall i | 0 <= i < |kwargs| :: kwargs[i].1 == PyNone
  {
    var i := 0;
    while i < |kwargs|
      invariant 0 <= i <= |kwargs|
      invariant forall j | 0 <= j < i :: kwargs[j].1 == PyNone
    {
      if kwargs[i].1 != PyNone {
        return false;
      }
      i := i + 1;
    }
    return true;
  }

  // ---------------------------------------------------------------- versions

  /** A parsed package version (`packaging.version.Version`): release segments, pre-release
      `(letter, number)`, post-release and dev-release numbers. Parsing is not part of this
      model; the parser guarantees at least one release segment. */
  datatype Version = Version(release: seq<nat>, pre: Option<(string, nat)>, post: Option<nat>, dev: Option<nat>)

  datatype VersionError =
    | ReleaseTooShort  // `release[1]` or `release[2]` raises IndexError
    | MissingPreRelease  // a dev release without a pre-release fails `check.not_none`

  /** `library_version_from_core_version`: core 1.x.y maps to library 0.(16+x).y. */
  function LibraryVersion(coreVersion: string, v: Version): (r: Result<string, VersionError>)
    requires |v.release| >= 1
    ensures v.release[0] < 1 ==> r == Success(coreVersion)
  {
    if v.release[0] < 1 then Success(coreVersion)
    else if |v.release| < 3 then Failure(ReleaseTooShort)
    else
      var base := "0." + NatToString(16 + v.release[1]) + "." + NatToString(v.release[2]);
      var isPreRelease := v.pre.Some? || v.dev.Some?;
      if isPreRelease && v.pre.None? then Failure(MissingPreRelease)
      else
        var withPre := if isPreRelease then base + v.pre.value.0 + NatToString(v.pre.value.1) else base;
        Success(if v.post.Some? then withPre + "post" + NatToString(v.post.value) else withPre)
  }

  lemma {:induction false} DigitsDotSplit(a: string, b: string, c: string, d: string)
    requires forall i | 0 <= i < |a| :: IsDigit(a[i])
    requires forall i | 0 <= i < |c| :: IsDigit(c[i])
    requires a + "." + b == c + "." + d
    ensures a == c && b == d
  {
    var s := a + "." + b;
    assert s[|a|] == '.';
    assert (c + "." + d)[|c|] == '.';
    assert |a| == |c|;
    assert a == s[..|a|];
    assert c == (c + "." + d)[..|c|];
    assert b == s[|a| + 1..];
    assert d == (c + "." + d)[|c| + 1..];
  }

  /** What follows the leading "0." of a final release's library version. */
  lemma FinalReleaseTail(coreVersion: string, v: Version)
    requires |v.release| >= 3 && v.release[0] >= 1
    requires v.pre.None? && v.post.None? && v.dev.None?
    ensures LibraryVersion(coreVersion, v).Success? && |LibraryVersion(coreVersion, v).value| >= 2
    ensures LibraryVersion(coreVersion, v).value[2..] == NatToString(16 + v.release[1]) + "." + NatToString(v.release[2])
  {
    var a := NatToString(16 + v.release[1]);
    var b := NatToString(v.release[2]);
    LibraryVersionOfFinalRelease(coreVersion, v);
    var x := "0." + a + "." + b;
    assert x == "0." + (a + "." + b);
    assert x[2..] == a + "." + b;
  }

  /** A final 1.x.y release maps to "0.(16+x).y", and the minor and patch are read back
      from it: distinct releases get distinct library versions. */
  lemma LibraryVersionOfFinalRelease(coreVersion: string, v: Version)
    requires |v.release| >= 3 && v.release[0] >= 1
    requires v.pre.None? && v.post.None? && v.dev.None?
    ensures LibraryVersion(coreVersion, v) == Success("0." + NatToString(16 + v.release[1]) + "." + NatToString(v.release[2]))
  {
  }

  lemma LibraryVersionInjective(c1: string, v1: Version, c2: string, v2: Version)
    requires |v1.release| >= 3 && v1.release[0] >= 1 && v1.pre.None? && v1.post.None? && v1.dev.None?
    requires |v2.release| >= 3 && v2.release[0] >= 1 && v2.pre.None? && v2.post.None? && v2.dev.None?
    requires LibraryVersion(c1, v1) == LibraryVersion(c2, v2)
    ensures v1.release[1] == v2.release[1] && v1.release[2] == v2.release[2]
  {
    FinalReleaseTail(c1, v1);
    FinalReleaseTail(c2, v2);
    DottedPairInjective(16 + v1.release[1], v1.release[2], 16 + v2.release[1], v2.release[2]);
  }

  /** "m.n" determines both numbers. */
  lemma DottedPairInjective(m1: nat, n1: nat, m2: nat, n2: nat)
    requires NatToString(m1) + "." + NatToString(n1) == NatToString(m2) + "." + NatToString(n2)
    ensures m1 == m2 && n1 == n2
  {
    DigitsDotSplit(NatToString(m1), NatToString(n1), NatToString(m2), NatToString(n2));
    NatToStringInjective(m1, m2);
    NatToStringInjective(n1, n2);
  }

  /** A pre-release keeps its letter and number, a post-release appends "post" and its
      number, and a dev release without a pre-release is refused. */
  lemma LibraryVersionSuffixes(coreVersion: string, v: Version)
    requires |v.release| >= 3 && v.release[0] >= 1
    ensures var base := "0." + NatToString(16 + v.release[1]) + "." + NatToString(v.release[2]);
      && (v.dev.Some? && v.pre.None? ==> LibraryVersion(coreVersion, v) == Failure(MissingPreRelease))
      && (v.pre.Some? && v.post.None? ==>
            LibraryVersion(coreVersion, v) == Success(base + v.pre.value.0 + NatToString(v.pre.value.1)))
      && (v.pre.None? && v.dev.None? && v.post.Some? ==>
            LibraryVersion(coreVersion, v) == Success(base + "post" + NatToString(v.post.value)))
  {
  }

  // ---------------------------------------------------------------- submodule names

  datatype RenameError = InvalidMode

  const PUBLIC_ROOT: string := "dagster."
  const PRIVATE_ROOT: string := "dagster._"

  /** `re.sub(r"^dagster\.([^_])", r"dagster._\1", name)`. */
  function ToPrivate(name: string): (r: string)
    ensures StartsWith(name, PUBLIC_ROOT) && |name| > 8 && name[8] != '_' ==> r == PRIVATE_ROOT + name[8..]
    ensures !(StartsWith(name, PUBLIC_ROOT) && |name| > 8 && name[8] != '_') ==> r == name
  {
    if StartsWith(name, PUBLIC_ROOT) && |name| > 8 && name[8] != '_' then PRIVATE_ROOT + name[8..] else name
  }

  /** The public pattern as written, `^dagster._`: its unescaped `.` matches any character
      other than a newline after "dagster", not only a dot. */
  function ToPublicAsWritten(name: string): (r: string)
    ensures StartsWith(name, PRIVATE_ROOT) ==> r == PUBLIC_ROOT + name[9..]
    ensures !StartsWith(name, "dagster") || |name| <= 8 || name[8] != '_' ==> r == name
  {
    if StartsWith(name, "dagster") && |name| > 8 && name[7] != '\n' && name[8] == '_' then PUBLIC_ROOT + name[9..] else name
  }

  /** The public pattern with the dot escaped, `^dagster\._`: the pattern as evidently
      intended, which differs from the one as written only on names of the form
      `dagster` + one character other than a dot + `_`. */
  function ToPublic(name: string): (r: string)
    ensures StartsWith(name, PRIVATE_ROOT) ==> r == PUBLIC_ROOT + name[9..]
    ensures !StartsWith(name, PRIVATE_ROOT) ==> r == name
  {
    if StartsWith(name, PRIVATE_ROOT) then PUBLIC_ROOT + name[9..] else name
  }

  /** `convert_dagster_submodule_name(name, mode)`. */
  function ConvertSubmoduleName(name: string, mode: string): (r: Result<string, RenameError>)
    ensures mode != "private" && mode != "public" ==> r == Failure(InvalidMode)
  {
    if mode == "private" then Success(ToPrivate(name))
    else if mode == "public" then Success(ToPublicAsWritten(name))
    else Failure(InvalidMode)
  }

  /** The two patterns agree except on a name whose eighth character is not a dot but
      is followed by an underscore. */
  lemma ToPublicAsWrittenAgrees(name: string)
    ensures !(StartsWith(name, "dagster") && |name| > 8 && name[7] != '.' && name[8] == '_') ==>
      ToPublicAsWritten(name) == ToPublic(name)
  {
    if StartsWith(name, "dagster") && |name| > 8 && name[7] == '.' {
      assert name[..9] == PRIVATE_ROOT <==> name[8] == '_';
    }
  }

  /** `convert_dagster_submodule_name` as written: renaming a public name private and
      back gives it again; renaming a private name public and back gives it again when
      the character after the underscore is not another underscore. */
  lemma ConvertSubmoduleNameRoundTrips(name: string)
    ensures StartsWith(name, PUBLIC_ROOT) && |name| > 8 && name[8] != '_' ==>
      && ConvertSubmoduleName(name, "private").Success?
      && ConvertSubmoduleName(ConvertSubmoduleName(name, "private").value, "public") == Success(name)
    ensures StartsWith(name, PRIVATE_ROOT) && |name| > 9 && name[9] != '_' ==>
      && ConvertSubmoduleName(name, "public").Success?
      && ConvertSubmoduleName(ConvertSubmoduleName(name, "public").value, "private") == Success(name)
  {
    SubmoduleNameRoundTrips(name);
    if StartsWith(name, PUBLIC_ROOT) && |name| > 8 && name[8] != '_' {
      var p := PRIVATE_ROOT + name[8..];
      assert p[..9] == PRIVATE_ROOT;
      ToPublicAsWrittenAgrees(p);
    }
    if StartsWith(name, PRIVATE_ROOT) {
      ToPublicAsWrittenAgrees(name);
    }
  }

  /** Making a name private and then public gives the name again, for every name not
      already in private form; making a private name public and then private gives it
      again when the character after the underscore is not another underscore. */
  lemma SubmoduleNameRoundTrips(name: string)
    ensures !StartsWith(name, PRIVATE_ROOT) ==> ToPublic(ToPrivate(name)) == name
    ensures StartsWith(name, PRIVATE_ROOT) && |name| > 9 && name[9] != '_' ==> ToPrivate(ToPublic(name)) == name
  {
    if StartsWith(name, PUBLIC_ROOT) && |name| > 8 && name[8] != '_' {
      var p := PRIVATE_ROOT + name[8..];
      assert p[..9] == PRIVATE_ROOT;
      assert p[9..] == name[8..];
      assert name == PUBLIC_ROOT + name[8..];
    }
    if StartsWith(name, PRIVATE_ROOT) && |name| > 9 && name[9] != '_' {
      var q := PUBLIC_ROOT + name[9..];
      assert q[..8] == PUBLIC_ROOT;
      assert q[8..] == name[9..];
      assert name == PRIVATE_ROOT + name[9..];
    }
  }

  /** With the pattern as written the round trip fails for "dagster__x", a name not in
      private form: the private rename leaves it alone and the public rename turns it into
      "dagster.x". */
  lemma PublicPatternCounterexample()
    ensures !StartsWith("dagster__x", PRIVATE_ROOT)
    ensures ToPrivate("dagster__x") == "dagster__x"
    ensures ToPublicAsWritten(ToPrivate("dagster__x")) == "dagster.x"
  {
    assert "dagster__x"[7] != PRIVATE_ROOT[7];
    assert "dagster__x"[7] != PUBLIC_ROOT[7];
  }

  // ---------------------------------------------------------------- Counter

  /** `Counter`: a count per key, starting from zero. The lock is not modelled. */
  class Counter {
    var counts: map<string, nat>

    constructor ()
      ensures counts == map[]
    {
      counts := map[];
    }

    /** The count of `key`, zero when it was never incremented. */
    function Count(key: string): nat
      reads this
    {
      if key in counts then counts[key] else 0
    }

    /** `increment(key)`. */
    method Increment(key: string)
      modifies this
      ensures counts == old(counts)[key := old(Count(key)) + 1]
      ensures Count(key) == old(Count(key)) + 1
      ensures forall k | k != key :: Count(k) == old(Count(k))
    {
      counts := counts[key := Count(key) + 1];
    }

    /** `counts()`: a copy of the counts. */
    method Counts() returns (copy: map<string, nat>)
      ensures copy == counts
    {
      copy := map k | k in counts :: counts[k];
    }
  }
}
