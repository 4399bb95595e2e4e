/**
  The arithmetic of `renderDashboard`: the records of the reference month,
  their total, the total per registrant, the registrants ordered by
  descending total and the largest total used to scale the bars.
 */
module Dashboard {
  import opened JsStrings
  import opened Records
  import opened Filtering
  import opened StableSort
  import opened Sequences

  /** The month filter: `d.getMonth() === now.getMonth() && d.getFullYear() === now.getFullYear()`. */
  function InMonth(ref: YearMonth): Record -> bool {
    (r: Record) => r.date == ref
  }

  /** `currentMonthRecords`: the records of the reference month, in list order. */
  function MonthRecords(records: seq<Record>, ref: YearMonth): (r: seq<Record>)
    ensures |r| <= |records|
  {
    Filter(InMonth(ref), records)
  }

  /** The sum of the amounts of `ms`. */
  function Total(ms: seq<Record>): int {
    if ms == [] then 0 else Total(ms[..|ms| - 1]) + ms[|ms| - 1].amount
  }

  /** The sum of the amounts of the records of `ms` registered by `name`. */
  function SumFor(ms: seq<Record>, name: JsString): int {
    if ms == [] then 0
    else SumFor(ms[..|ms| - 1], name) + if ms[|ms| - 1].registrant == name then ms[|ms| - 1].amount else 0
  }

  /** The registrants of `ms`, each once, in the order of their first record. */
  function Registrants(ms: seq<Record>): (names: seq<JsString>)
    ensures |names| <= |ms|
  {
    if ms == [] then []
    else
      var earlier := Registrants(ms[..|ms| - 1]);
      var name := ms[|ms| - 1].registrant;
      if name in earlier then earlier else earlier + [name]
  }

  /** `perUser` once the loop is done: each registrant's total. */
  function PerUser(ms: seq<Record>): map<JsString, int> {
    map name | name in Registrants(ms) :: SumFor(ms, name)
  }

  /** `perUser[name]` as the comparator reads it (0 for a name not in the map). */
  function Weight(perUser: map<JsString, int>): JsString -> int {
    name => if name in perUser then perUser[name] else 0
  }

  /** `users`: `Object.keys(perUser)` sorted by `perUser[b] - perUser[a]`. */
  function Users(ms: seq<Record>): seq<JsString> {
    SortByWeight(Registrants(ms), Weight(PerUser(ms)))
  }

  /** `maxVal`: the first user's total, or 1 when there is no user. */
  function MaxVal(ms: seq<Record>): int {
    var users := Users(ms);
    if |users| > 0 then Weight(PerUser(ms))(users[0]) else 1
  }

  /** The sum over `names` of each name's total. */
  function SumOver(names: seq<JsString>, ms: seq<Record>): int {
    if names == [] then 0 else SumFor(ms, names[0]) + SumOver(names[1..], ms)
  }

  /** Appending `r` to `seen` adds its amount and, when it is new, its registrant. */
  lemma AppendStep(seen: seq<Record>, r: Record)
    ensures Total(seen + [r]) == Total(seen) + r.amount
    ensures forall name ::
              SumFor(seen + [r], name) == SumFor(seen, name) + (if r.registrant == name then r.amount else 0)
    ensures Registrants(seen + [r]) ==
      Registrants(seen) + if r.registrant in Registrants(seen) then [] else [r.registrant]
  {
    assert (seen + [r])[..|seen|] == seen;
  }

  /** A name with no record in `ms` has total 0 there; one with a record is a registrant. */
  lemma {:induction false} RegistrantsExact(ms: seq<Record>, name: JsString)
    ensures name in Registrants(ms) <==> exists k :: 0 <= k < |ms| && ms[k].registrant == name
    ensures name !in Registrants(ms) ==> SumFor(ms, name) == 0
  {
    if ms != [] {
      var init := ms[..|ms| - 1];
      RegistrantsExact(init, name);
      if name in Registrants(init) {
        var k :| 0 <= k < |init| && init[k].registrant == name;
        assert ms[k] == init[k];
      }
      if exists k :: 0 <= k < |ms| && ms[k].registrant == name {
        var k :| 0 <= k < |ms| && ms[k].registrant == name;
        if k < |init| {
          assert init[k] == ms[k];
        }
      }
    }
  }

  /** No registrant is listed twice. */
  lemma {:induction false} RegistrantsDistinct(ms: seq<Record>)
    ensures Distinct(Registrants(ms))
  {
    if ms != [] {
      RegistrantsDistinct(ms[..|ms| - 1]);
    }
  }

  lemma {:induction false} SumOverConcat(a: seq<JsString>, b: seq<JsString>, ms: seq<Record>)
    ensures SumOver(a + b, ms) == SumOver(a, ms) + SumOver(b, ms)
  {
    if a == [] {
      assert a + b == b;
    } else {
      assert (a + b)[0] == a[0] && (a + b)[1..] == a[1..] + b;
      SumOverConcat(a[1..], b, ms);
    }
  }

  /** Adding the last record to `init` adds its amount to the sum over distinct names that include its registrant. */
  lemma {:induction false} SumOverStep(names: seq<JsString>, ms: seq<Record>)
    requires ms != [] && Distinct(names)
    ensures SumOver(names, ms) ==
      SumOver(names, ms[..|ms| - 1]) + if ms[|ms| - 1].registrant in names then ms[|ms| - 1].amount else 0
  {
    if names != [] {
      SumOverStep(names[1..], ms);
      var last := ms[|ms| - 1];
      if last.registrant == names[0] {
        assert last.registrant !in names[1..];
      } else {
        assert last.registrant in names <==> last.registrant in names[1..];
      }
    }
  }

  /** The per-registrant totals add up to the month's total. */
  lemma {:induction false} PerUserAddsUp(ms: seq<Record>)
    ensures SumOver(Registrants(ms), ms) == Total(ms)
  {
    if ms != [] {
      var init := ms[..|ms| - 1];
      var last := ms[|ms| - 1];
      var earlier := Registrants(init);
      PerUserAddsUp(init);
      RegistrantsDistinct(init);
      SumOverStep(earlier, ms);
      if last.registrant !in earlier {
        SumOverConcat(earlier, [last.registrant], ms);
        RegistrantsExact(init, last.registrant);
        assert SumOver([last.registrant], ms) == SumFor(ms, last.registrant);
      }
    }
  }

  /**
    One more record adds its amount to its registrant's entry, which is
    created when the registrant had none.
   */
  lemma PerUserStep(seen: seq<Record>, r: Record)
    ensures var before := PerUser(seen);
      PerUser(seen + [r]) == before[r.registrant := (if r.registrant in before then before[r.registrant] else 0) + r.amount]
  {
    var before := PerUser(seen);
    var name := r.registrant;
    var after := before[name := (if name in before then before[name] else 0) + r.amount];
    var next := PerUser(seen + [r]);
    AppendStep(seen, r);
    RegistrantsExact(seen, name);
    forall n
      ensures n in next <==> n in after
    {
    }
    forall n | n in after
      ensures next[n] == after[n]
    {
    }
    assert next == after;
  }

  /** The effect of one iteration of the loop of Tally on the keys and on `perUser`. */
  lemma TallyStep(seen: seq<Record>, r: Record, keys: seq<JsString>, perUser: map<JsString, int>)
    requires keys == Registrants(seen) && perUser == PerUser(seen)
    ensures Total(seen + [r]) == Total(seen) + r.amount
    ensures Registrants(seen + [r]) == if r.registrant in perUser then keys else keys + [r.registrant]
    ensures r.registrant in perUser && perUser[r.registrant] != 0 ==>
      PerUser(seen + [r]) == perUser[r.registrant := perUser[r.registrant] + r.amount]
    ensures !(r.registrant in perUser && perUser[r.registrant] != 0) ==>
      PerUser(seen + [r]) == perUser[r.registrant := r.amount]
  {
    AppendStep(seen, r);
    PerUserStep(seen, r);
  }

  /**
    The `forEach` loop of `renderDashboard` over the month's records, with the
    branch on the truthiness of `perUser[r.registrant]`: a present entry that
    has summed to 0 is overwritten with the amount instead of added to, which
    gives the same value. `keys` lists the names in the order they were
    added to `perUser`, which is what `Object.keys(perUser)` returns.
   */
  method Tally(month: seq<Record>) returns (total: int, perUser: map<JsString, int>, keys: seq<JsString>)
    ensures total == Total(month) && perUser == PerUser(month) && keys == Registrants(month)
  {
    total := 0;
    perUser := map[];
    keys := [];
    ghost var seen: seq<Record> := [];
    for i := 0 to |month|
      invariant seen == month[..i]
      invariant total == Total(seen)
      invariant keys == Registrants(seen)
      invariant perUser == PerUser(seen)
    {
      var r := month[i];
      TallyStep(seen, r, keys, perUser);
      total := total + r.amount;
      if r.registrant in perUser && perUser[r.registrant] != 0 {
        perUser := perUser[r.registrant := perUser[r.registrant] + r.amount];
      } else {
        if r.registrant !in perUser {
          keys := keys + [r.registrant];
        }
        perUser := perUser[r.registrant := r.amount];
      }
      seen := seen + [r];
      assert seen == month[..i + 1];
    }
    assert month[..|month|] == month;
  }

  /**
    `renderDashboard` without its output: the reference month's records, their
    total and per-registrant totals, the registrants by descending total and
    the total that scales the bars.
   */
  method Summarize(records: seq<Record>, ref: YearMonth)
    returns (total: int, perUser: map<JsString, int>, users: seq<JsString>, maxVal: int)
    ensures var month := MonthRecords(records, ref);
      total == Total(month) && perUser == PerUser(month) && users == Users(month) && maxVal == MaxVal(month)
  {
    var month := MonthRecords(records, ref);
    var keys;
    total, perUser, keys := Tally(month);
    users := SortByWeight(keys, Weight(perUser));
    if |users| > 0 {
      SortIsPermutation(keys, Weight(perUser));
      assert users[0] in multiset(keys);
      maxVal := perUser[users[0]];
    } else {
      maxVal := 1;
    }
  }

  /** Only records of the reference month count: one from another month changes nothing. */
  lemma OtherMonthIgnored(before: seq<Record>, r: Record, after: seq<Record>, ref: YearMonth)
    requires r.date != ref
    ensures MonthRecords(before + [r] + after, ref) == MonthRecords(before + after, ref)
  {
    FilterConcat(InMonth(ref), before + [r], after);
    FilterConcat(InMonth(ref), before, [r]);
    FilterConcat(InMonth(ref), before, after);
    assert Filter(InMonth(ref), [r]) == [];
  }

  lemma {:induction false} TotalConcat(a: seq<Record>, b: seq<Record>)
    ensures Total(a + b) == Total(a) + Total(b)
    decreases |b|
  {
    if b == [] {
      assert a + b == a;
    } else {
      assert (a + b)[..|a + b| - 1] == a + b[..|b| - 1];
      TotalConcat(a, b[..|b| - 1]);
    }
  }

  /** A new record of the reference month, put in front, adds its amount to the month's total. */
  lemma NewRecordAdds(r: Record, records: seq<Record>, ref: YearMonth)
    requires r.date == ref
    ensures Total(MonthRecords([r] + records, ref)) == r.amount + Total(MonthRecords(records, ref))
  {
    FilterConcat(InMonth(ref), [r], records);
    assert Filter(InMonth(ref), [r]) == [r];
    TotalConcat([r], MonthRecords(records, ref));
    assert Total([r]) == Total([r][..0]) + r.amount;
  }

  /** With no record of the reference month the total is 0, no user is listed and maxVal is 1. */
  lemma EmptyMonth(records: seq<Record>, ref: YearMonth)
    requires forall k :: 0 <= k < |records| ==> records[k].date != ref
    ensures MonthRecords(records, ref) == []
    ensures Total(MonthRecords(records, ref)) == 0
    ensures Users(MonthRecords(records, ref)) == [] && MaxVal(MonthRecords(records, ref)) == 1
  {
    FilterKeepsNone(InMonth(ref), records);
  }

  /** The users are the month's registrants, each listed once. */
  lemma UsersAreRegistrants(ms: seq<Record>)
    ensures multiset(Users(ms)) == multiset(Registrants(ms)) && Distinct(Users(ms))
    ensures forall name :: name in Users(ms) <==> exists k :: 0 <= k < |ms| && ms[k].registrant == name
  {
    var names := Registrants(ms);
    var users := Users(ms);
    SortIsPermutation(names, Weight(PerUser(ms)));
    RegistrantsDistinct(ms);
    forall name
      ensures name in users <==> exists k :: 0 <= k < |ms| && ms[k].registrant == name
    {
      RegistrantsExact(ms, name);
      assert name in users <==> name in multiset(users);
      assert name in names <==> name in multiset(names);
    }
    DistinctPermutation(names, users);
  }

  /**
    The users are ordered by descending total, registrants with equal totals
    in the order of their first record.
   */
  lemma UsersByTotal(ms: seq<Record>)
    ensures forall i, j :: 0 <= i < j < |Users(ms)| ==> SumFor(ms, Users(ms)[i]) >= SumFor(ms, Users(ms)[j])
    ensures SameTies(Weight(PerUser(ms)), Users(ms), Registrants(ms))
  {
    var w := Weight(PerUser(ms));
    var names := Registrants(ms);
    var users := Users(ms);
    SortIsPermutation(names, w);
    SortIsSorted(names, w);
    SortIsStable(names, w);
    forall i, j | 0 <= i < j < |users|
      ensures SumFor(ms, users[i]) >= SumFor(ms, users[j])
    {
      assert users[i] in multiset(names) && users[j] in multiset(names);
      assert w(users[i]) >= w(users[j]);
    }
  }

  /** maxVal is the largest per-user total, or 1 when the month has no records. */
  lemma MaxValIsLargest(ms: seq<Record>)
    ensures ms == [] ==> MaxVal(ms) == 1
    ensures ms != [] ==> exists k :: 0 <= k < |ms| && MaxVal(ms) == SumFor(ms, ms[k].registrant)
    ensures forall k :: 0 <= k < |ms| ==> SumFor(ms, ms[k].registrant) <= MaxVal(ms)
  {
    var names := Registrants(ms);
    var users := Users(ms);
    var w := Weight(PerUser(ms));
    SortIsPermutation(names, w);
    SortIsSorted(names, w);
    if ms != [] {
      RegistrantsExact(ms, ms[0].registrant);
      assert ms[0].registrant in multiset(names);
      assert users != [];
      assert users[0] in multiset(names);
      RegistrantsExact(ms, users[0]);
    }
    forall k | 0 <= k < |ms|
      ensures SumFor(ms, ms[k].registrant) <= MaxVal(ms)
    {
      RegistrantsExact(ms, ms[k].registrant);
      assert ms[k].registrant in multiset(users);
      FirstIsHeaviest(users, w, ms[k].registrant);
    }
  }
}
