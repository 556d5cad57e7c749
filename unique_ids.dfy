/**
 * `uniqueID`: per-document counters, one per prefix, that number the ids
 * handed out for that prefix from 0 upwards.
 */
module UniqueIds {
  import opened Wrappers
  import opened Strings

  /** The document's `_ljUniqueHash`: the last number handed out per prefix key. */
  type Counters = map<string, int>

  /** A prefixed id `prefix[n]`, or the bare number when no prefix was given. */
  datatype Id = Named(text: string) | Numbered(n: nat)

  predicate ValidCounters(h: Counters)
  {
    forall k :: k in h ==> h[k] >= 0
  }

  /** The hash key of a prefix: a missing or empty prefix falls back to -1, whose key is "-1". */
  function Key(prefix: Option<string>): string
  {
    if prefix.None? || prefix.value == "" then "-1" else prefix.value
  }

  /**
   * The properties every plain object inherits from `Object.prototype`. The
   * hash starts out as `{}`, so for these keys `uniqueHash[prefix]` is never
   * `undefined`: the counter is not set to -1, `++` turns the inherited member
   * into NaN, and every later call reads that NaN back. The operations below
   * take the inherited names as a parameter `inherited`; the document passes
   * this set.
   */
  const ObjectPrototypeNames: set<string> :=
    {"constructor", "__proto__", "__defineGetter__", "__defineSetter__", "__lookupGetter__",
     "__lookupSetter__", "hasOwnProperty", "isPrototypeOf", "propertyIsEnumerable",
     "toLocaleString", "toString", "valueOf"}

  /** The id handed out, on every call, for a prefix that names an inherited property. */
  function NaNId(prefix: string): Id
  {
    Named(prefix + "[NaN]")
  }

  /** The number the next id for `key` receives. */
  function Next(h: Counters, key: string): (n: nat)
    requires ValidCounters(h)
    ensures key !in h ==> n == 0
  {
    if key in h then h[key] + 1 else 0
  }

  function IdFor(prefix: Option<string>, n: nat): Id
  {
    if prefix.None? || prefix.value == "" then Numbered(n)
    else Named(prefix.value + "[" + Decimal(n) + "]")
  }

  /**
   * One call: the prefix's counter advances by one (starting from -1) and the
   * id carries the new value; every other counter is left alone. A prefix that
   * names a property in `inherited` (what the hash object inherits) gets
   * `prefix[NaN]` and no counter: the NaN stored there behaves, for every later
   * call, like the inherited member.
   */
  function Issue(h: Counters, inherited: set<string>, prefix: Option<string>): (r: (Id, Counters))
    requires ValidCounters(h)
    ensures ValidCounters(r.1)
    ensures forall k :: k != Key(prefix) ==> (k in r.1 <==> k in h)
    ensures forall k :: k in h && k != Key(prefix) ==> r.1[k] == h[k]
    ensures Key(prefix) in inherited ==> r == (NaNId(Key(prefix)), h)
    ensures Key(prefix) !in inherited ==>
              && Key(prefix) in r.1
              && (Key(prefix) in h ==> r.1[Key(prefix)] == h[Key(prefix)] + 1)
              && (Key(prefix) !in h ==> r.1[Key(prefix)] == 0)
              && r.0 == IdFor(prefix, r.1[Key(prefix)])
  {
    var key := Key(prefix);
    if key in inherited then (NaNId(key), h)
    else
      var n := Next(h, key);
      (IdFor(prefix, n), h[key := n])
  }

  /** `count` calls in a row with the same prefix. */
  function IssueMany(h: Counters, inherited: set<string>, prefix: Option<string>, count: nat): (r: (seq<Id>, Counters))
    requires ValidCounters(h)
    ensures ValidCounters(r.1) && |r.0| == count
  {
    if count == 0 then ([], h)
    else
      var before := IssueMany(h, inherited, prefix, count - 1);
      var one := Issue(before.1, inherited, prefix);
      (before.0 + [one.0], one.1)
  }

  /** One call hands out the number that was next, and the one after it becomes next. */
  lemma IssueAdvances(h: Counters, inherited: set<string>, prefix: Option<string>)
    requires ValidCounters(h) && Key(prefix) !in inherited
    ensures var r := Issue(h, inherited, prefix);
            r.0 == IdFor(prefix, Next(h, Key(prefix))) && Next(r.1, Key(prefix)) == Next(h, Key(prefix)) + 1
  {
  }

  /** Successive calls with one prefix number consecutively from where its counter stood. */
  lemma {:induction false} IssueManyConsecutive(h: Counters, inherited: set<string>, prefix: Option<string>, count: nat)
    requires ValidCounters(h) && Key(prefix) !in inherited
    ensures var r := IssueMany(h, inherited, prefix, count);
            && (forall j :: 0 <= j < count ==> r.0[j] == IdFor(prefix, Next(h, Key(prefix)) + j))
            && Next(r.1, Key(prefix)) == Next(h, Key(prefix)) + count
  {
    IssueManyAdvancesNext(h, inherited, prefix, count);
    if count > 0 {
      IssueManyConsecutive(h, inherited, prefix, count - 1);
      var before := IssueMany(h, inherited, prefix, count - 1);
      IssueAdvances(before.1, inherited, prefix);
      var last := Issue(before.1, inherited, prefix).0;
      NumberedRunExtends(IssueMany(h, inherited, prefix, count).0, before.0, last, prefix, Next(h, Key(prefix)));
    }
  }

  /** After `count` calls with one prefix, its next number has moved on by `count`. */
  lemma {:induction false} IssueManyAdvancesNext(h: Counters, inherited: set<string>, prefix: Option<string>, count: nat)
    requires ValidCounters(h) && Key(prefix) !in inherited
    ensures Next(IssueMany(h, inherited, prefix, count).1, Key(prefix)) == Next(h, Key(prefix)) + count
  {
    if count > 0 {
      IssueManyAdvancesNext(h, inherited, prefix, count - 1);
      IssueAdvances(IssueMany(h, inherited, prefix, count - 1).1, inherited, prefix);
    }
  }

  /** A run numbered from `base` stays one when the next number's id is appended. */
  lemma NumberedRunExtends(run: seq<Id>, ids: seq<Id>, last: Id, prefix: Option<string>, base: nat)
    requires run == ids + [last]
    requires forall j :: 0 <= j < |ids| ==> ids[j] == IdFor(prefix, base + j)
    requires last == IdFor(prefix, base + |ids|)
    ensures forall j :: 0 <= j < |run| ==> run[j] == IdFor(prefix, base + j)
  {
    forall j | 0 <= j < |run|
      ensures run[j] == IdFor(prefix, base + j)
    {
      if j < |ids| {
        assert run[j] == ids[j];
      }
    }
  }

  /** A run of calls with one prefix leaves every other prefix's counter as it was. */
  lemma {:induction false} IssueManyKeepsOthers(h: Counters, inherited: set<string>, prefix: Option<string>, count: nat)
    requires ValidCounters(h)
    ensures var r := IssueMany(h, inherited, prefix, count);
            && (forall k :: k != Key(prefix) ==> (k in r.1 <==> k in h))
            && (forall k :: k in h && k != Key(prefix) ==> r.1[k] == h[k])
  {
    if count > 0 {
      IssueManyKeepsOthers(h, inherited, prefix, count - 1);
    }
  }

  /** Ids of one prefix differ when their numbers do. */
  lemma IdForInjective(prefix: Option<string>, m: nat, n: nat)
    requires IdFor(prefix, m) == IdFor(prefix, n)
    ensures m == n
  {
    if prefix.Some? && prefix.value != "" {
      var p := prefix.value;
      var a, b := p + "[" + Decimal(m) + "]", p + "[" + Decimal(n) + "]";
      assert a[|p| + 1..|a| - 1] == Decimal(m);
      assert b[|p| + 1..|b| - 1] == Decimal(n);
      DecimalInjective(m, n);
    }
  }

  /** A prefixed id determines both its prefix and its number. */
  lemma NamedIdDeterminesPrefix(p: string, q: string, m: nat, n: nat)
    requires p + "[" + Decimal(m) + "]" == q + "[" + Decimal(n) + "]"
    ensures p == q && m == n
  {
    var s := p + "[" + Decimal(m) + "]";
    forall i | |p| < i < |s|
      ensures s[i] != '['
    {
      if i < |s| - 1 {
        assert s[i] == Decimal(m)[i - |p| - 1];
      }
    }
    forall i | |q| < i < |s|
      ensures s[i] != '['
    {
      if i < |s| - 1 {
        assert s[i] == Decimal(n)[i - |q| - 1];
      }
    }
    assert s[|p|] == '[' && s[|q|] == '[';
    assert |p| == |q|;
    assert p == s[..|p|] == q;
    assert s[|p| + 1..|s| - 1] == Decimal(m);
    assert (q + "[" + Decimal(n) + "]")[|q| + 1..|s| - 1] == Decimal(n);
    DecimalInjective(m, n);
  }

  /** All ids handed out by a run of calls with one prefix are different. */
  lemma IssuedIdsDistinct(h: Counters, inherited: set<string>, prefix: Option<string>, count: nat)
    requires ValidCounters(h) && Key(prefix) !in inherited
    ensures var ids := IssueMany(h, inherited, prefix, count).0;
            forall i, j :: 0 <= i < j < count ==> ids[i] != ids[j]
  {
    IssueManyConsecutive(h, inherited, prefix, count);
    var ids := IssueMany(h, inherited, prefix, count).0;
    forall i, j | 0 <= i < j < count
      ensures ids[i] != ids[j]
    {
      var base := Next(h, Key(prefix));
      if ids[i] == ids[j] {
        IdForInjective(prefix, base + i, base + j);
      }
    }
  }

  /**
   * A prefix that names an inherited property gets the same `prefix[NaN]` on
   * every call, and the counters stay as they were: its ids are not unique.
   */
  lemma {:induction false} InheritedPrefixRepeats(h: Counters, inherited: set<string>, prefix: Option<string>, count: nat)
    requires ValidCounters(h) && Key(prefix) in inherited
    ensures var r := IssueMany(h, inherited, prefix, count);
            && r.1 == h
            && forall j :: 0 <= j < count ==> r.0[j] == NaNId(Key(prefix))
  {
    if count > 0 {
      InheritedPrefixRepeats(h, inherited, prefix, count - 1);
      var before := IssueMany(h, inherited, prefix, count - 1);
      var ids := before.0 + [Issue(before.1, inherited, prefix).0];
      assert forall j :: 0 <= j < count - 1 ==> ids[j] == before.0[j];
    }
  }

  /** Two calls with the prefix "constructor" return the same id. */
  lemma ConstructorIdRepeats(h: Counters)
    requires ValidCounters(h)
    ensures var r := IssueMany(h, ObjectPrototypeNames, Some("constructor"), 2);
            r.0[0] == r.0[1] == Named("constructor[NaN]")
  {
    assert "constructor" in ObjectPrototypeNames;
    InheritedPrefixRepeats(h, ObjectPrototypeNames, Some("constructor"), 2);
  }

  /**
   * The string prefix "-1" shares its counter with a missing prefix: after a
   * bare id 0 it is numbered 1, not 0.
   */
  lemma MinusOneSharesCounter(h: Counters)
    requires ValidCounters(h) && "-1" !in h
    ensures var first := Issue(h, ObjectPrototypeNames, None);
            var second := Issue(first.1, ObjectPrototypeNames, Some("-1"));
            first.0 == Numbered(0) && second.0 == Named("-1[1]")
  {
    assert "-1" !in ObjectPrototypeNames;
    var first := Issue(h, ObjectPrototypeNames, None);
    assert first.1["-1"] == 0;
    var second := Issue(first.1, ObjectPrototypeNames, Some("-1"));
    assert second.1["-1"] == 1;
    assert Decimal(1) == "1";
  }
}
