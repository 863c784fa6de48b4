/** The person list of the persons screen and the category list of the buy
    screen, with their add, edit and delete guards. */
module Directory {
  import opened JsValues
  import opened Transactions
  import Balances

  /** Why an add or a delete is refused. */
  datatype Refusal = EnterName | PersonExists | PersonHasTransactions | CategoryExists

  /** A list edit: applied, with the new list; ignored without a message; or refused. */
  datatype Outcome<T> = Done(list: seq<T>) | Ignored | Refused(why: Refusal)

  // ------------------------------------------------------------------ persons

  /** The person list the application starts from. */
  const DefaultPersons: seq<string> := ["JACK", "AMiR", "JD", "Khalil"]

  /** A name as the persons form leaves it: non-empty, with no whitespace at
      either end, which is to say its own trim (`CleanIsTrimmed`). */
  predicate CleanName(s: string) {
    |s| > 0 && !IsJsWhitespace(s[0]) && !IsJsWhitespace(s[|s| - 1])
  }

  lemma CleanIsTrimmed(s: string)
    ensures CleanName(s) <==> s != "" && Trim(s) == s
  {
    if CleanName(s) {
      TrimOfClean(s);
    }
    if s != "" && Trim(s) == s {
      TrimIsInnerPart(s);
    }
  }

  /** Names as the persons form leaves them: clean, each once. */
  predicate WellFormedNames(ps: seq<string>) {
    Distinct(ps) && forall k :: 0 <= k < |ps| ==> CleanName(ps[k])
  }

  lemma DefaultPersonsWellFormed()
    ensures WellFormedNames(DefaultPersons)
  {
    var ps := DefaultPersons;
    assert ps[0] == "JACK" && ps[1] == "AMiR" && ps[2] == "JD" && ps[3] == "Khalil";
  }

  /** The persons form's submit: the trimmed name must be non-empty and new. */
  function AddPerson(ps: seq<string>, input: string): (r: Outcome<string>)
    ensures r == Refused(EnterName) <==> AllWhitespace(input)
    ensures r == Refused(PersonExists) <==> !AllWhitespace(input) && Trim(input) in ps
    ensures r.Done? <==> !AllWhitespace(input) && Trim(input) !in ps
    ensures r.Done? ==> r.list == ps + [Trim(input)]
  {
    TrimEmptyIffWhitespace(input);
    var name := Trim(input);
    if name == "" then Refused(EnterName)
    else if name in ps then Refused(PersonExists)
    else Done(ps + [name])
  }

  /** Adding keeps the list well formed. */
  lemma AddPersonKeepsNames(ps: seq<string>, input: string)
    requires WellFormedNames(ps) && AddPerson(ps, input).Done?
    ensures WellFormedNames(AddPerson(ps, input).list)
  {
    var name := Trim(input);
    TrimEmptyIffWhitespace(input);
    TrimIsInnerPart(input);
    assert CleanName(name);
    DistinctSnoc(ps, name);
    var r := ps + [name];
    assert AddPerson(ps, input).list == r;
    forall k | 0 <= k < |r| ensures CleanName(r[k]) {
      if k < |ps| { assert r[k] == ps[k]; }
    }
  }

  /** `tr.person === person`: only receive, pay and buy rows have a `person`. */
  predicate HasPerson(tr: Transaction, p: string) {
    (tr.Receive? || tr.Pay? || tr.Buy?) && tr.person == p
  }

  /** `persons.filter(x => x !== p)`. */
  function Without<T(==)>(ps: seq<T>, p: T): (r: seq<T>)
    ensures forall k :: 0 <= k < |r| ==> r[k] != p
    ensures forall k :: 0 <= k < |ps| && ps[k] != p ==> ps[k] in r
    ensures multiset(r) <= multiset(ps)
  {
    if |ps| == 0 then []
    else
      assert ps == [ps[0]] + ps[1..];
      (if ps[0] != p then [ps[0]] else []) + Without(ps[1..], p)
  }

  /** The persons screen's `handleDelete`: a person named on a receive, pay or buy
      row stays. */
  function DeletePerson(ps: seq<string>, ts: seq<Row>, p: string): (r: Outcome<string>)
    ensures r == Refused(PersonHasTransactions) <==> exists i :: 0 <= i < |ts| && HasPerson(ts[i].tx, p)
    ensures r.Done? <==> !exists i :: 0 <= i < |ts| && HasPerson(ts[i].tx, p)
    ensures r.Done? ==> r.list == Without(ps, p)
  {
    if exists i :: 0 <= i < |ts| && HasPerson(ts[i].tx, p) then Refused(PersonHasTransactions)
    else Done(Without(ps, p))
  }

  lemma {:induction false} WithoutKeepsDistinct(ps: seq<string>, p: string)
    requires Distinct(ps)
    ensures Distinct(Without(ps, p))
    decreases |ps|
  {
    if |ps| > 0 {
      var tail := ps[1..];
      assert Distinct(tail) by {
        forall a, b | 0 <= a < b < |tail| ensures tail[a] != tail[b] {
          assert tail[a] == ps[a + 1] && tail[b] == ps[b + 1];
        }
      }
      WithoutKeepsDistinct(tail, p);
      var rest := Without(tail, p);
      if ps[0] != p {
        assert ps[0] !in multiset(rest);
        var r := [ps[0]] + rest;
        forall a, b | 0 <= a < b < |r| ensures r[a] != r[b] {
          if a > 0 { assert r[a] == rest[a - 1]; }
          assert r[b] == rest[b - 1];
        }
      }
    }
  }

  /** Deleting keeps the list well formed and removes exactly that name. */
  lemma DeletePersonKeepsNames(ps: seq<string>, ts: seq<Row>, p: string)
    requires WellFormedNames(ps) && DeletePerson(ps, ts, p).Done?
    ensures WellFormedNames(DeletePerson(ps, ts, p).list)
    ensures forall x :: x in DeletePerson(ps, ts, p).list <==> x in ps && x != p
  {
    WithoutKeepsDistinct(ps, p);
    var r := Without(ps, p);
    forall k | 0 <= k < |r| ensures CleanName(r[k]) {
      assert r[k] in multiset(ps);
    }
    forall x | x in r ensures x in ps {
      assert x in multiset(ps);
    }
  }

  lemma WithoutCons<T>(x: T, t: seq<T>, p: T)
    ensures x == p ==> Without([x] + t, p) == Without(t, p)
    ensures x != p ==> Without([x] + t, p) == [x] + Without(t, p)
  {
    assert ([x] + t)[1..] == t;
    assert [] + Without(t, p) == Without(t, p);
  }

  lemma ShownCons(x: string, t: seq<string>, search: string)
    ensures !Balances.Shown(x, search) ==> Balances.ShownPersons([x] + t, search) == Balances.ShownPersons(t, search)
    ensures Balances.Shown(x, search) ==> Balances.ShownPersons([x] + t, search) == [x] + Balances.ShownPersons(t, search)
  {
    assert ([x] + t)[1..] == t;
    assert [] + Balances.ShownPersons(t, search) == Balances.ShownPersons(t, search);
  }

  /** The search filter and the delete filter commute. */
  lemma {:induction false} ShownWithout(ps: seq<string>, search: string, p: string)
    ensures Balances.ShownPersons(Without(ps, p), search) == Without(Balances.ShownPersons(ps, search), p)
    decreases |ps|
  {
    if |ps| > 0 {
      var x, tail := ps[0], ps[1..];
      assert ps == [x] + tail;
      ShownWithout(tail, search, p);
      WithoutCons(x, tail, p);
      ShownCons(x, tail, search);
      if x != p {
        ShownCons(x, Without(tail, p), search);
      }
      if Balances.Shown(x, search) {
        WithoutCons(x, Balances.ShownPersons(tail, search), p);
      }
    }
  }

  /** `n` copies of `v`, added up. */
  function Times(n: nat, v: real): real {
    if n == 0 then 0.0 else v + Times(n - 1, v)
  }

  /** Dropping a name from a list of names drops its entry from their total, once
      for each time the name occurs. */
  lemma ShownTotalCons<K>(b: map<K, Totals>, x: K, t: seq<K>, c: Currency)
    ensures Balances.ShownTotal(b, [x] + t, c) == Balances.Entry(b, x, c) + Balances.ShownTotal(b, t, c)
  {
    assert ([x] + t)[1..] == t;
  }

  lemma TimesSucc(m: nat, v: real)
    ensures Times(m + 1, v) == v + Times(m, v)
  {
  }

  lemma {:induction false} ShownTotalWithout<K>(b: map<K, Totals>, names: seq<K>, p: K, c: Currency)
    ensures Balances.ShownTotal(b, Without(names, p), c)
            == Balances.ShownTotal(b, names, c) - Times(multiset(names)[p], Balances.Entry(b, p, c))
    decreases |names|
  {
    if |names| > 0 {
      var x, tail := names[0], names[1..];
      var e := Balances.Entry(b, p, c);
      var m := multiset(tail)[p];
      var w := Without(tail, p);
      assert names == [x] + tail;
      assert multiset(names)[p] == (if x == p then m + 1 else m);
      ShownTotalWithout(b, tail, p, c);
      WithoutCons(x, tail, p);
      ShownTotalCons(b, x, tail, c);
      if x == p {
        TimesSucc(m, e);
      } else {
        ShownTotalCons(b, x, w, c);
      }
    }
  }

  /** A deleted person leaves the dashboard: the table, the charts and the total
      cards go over the person list only, so the name is no longer shown and its
      entry drops out of each currency's total, even while the balances map keeps
      an entry for a name some row mentions. */
  lemma DeletedPersonLeavesDashboard(ps: seq<string>, ts: seq<Row>, p: string, search: string,
                                     b: map<string, Totals>, c: Currency)
    requires Distinct(ps) && DeletePerson(ps, ts, p).Done?
    ensures p !in Balances.ShownPersons(DeletePerson(ps, ts, p).list, search)
    ensures var before := Balances.ShownPersons(ps, search);
      Balances.ShownTotal(b, Balances.ShownPersons(DeletePerson(ps, ts, p).list, search), c)
      == Balances.ShownTotal(b, before, c) - (if p in before then Balances.Entry(b, p, c) else 0.0)
  {
    var before := Balances.ShownPersons(ps, search);
    var after := Balances.ShownPersons(Without(ps, p), search);
    ShownWithout(ps, search, p);
    ShownTotalWithout(b, before, p, c);
    DistinctCountOne(ps, p);
    Balances.ShownPersonsSpec(ps, search);
    Balances.ShownPersonsSpec(Without(ps, p), search);
    assert p !in Without(ps, p);
    assert multiset(after)[p] == 0;
    if p in before {
      assert multiset(before)[p] == 1;
      assert Times(1, Balances.Entry(b, p, c)) == Balances.Entry(b, p, c);
    } else {
      assert multiset(before)[p] == 0;
    }
  }

  /** The delete looks at `person` only: a person who appears just as a transfer's
      sender can be deleted. The balances map still gets an entry for them, with
      the transfer's effect, but a listed person who is deleted is no longer shown
      (and `DeletedPersonLeavesDashboard` drops their entry from the totals). */
  lemma TransferPartyDeletable(ps: seq<string>, u: string, p: string, q: string)
    requires p != "" && q != "" && p != q
    ensures var ts := [Row(0, Transfer(u, 0, "", p, q, 5.0, Usd))];
      && DeletePerson(ps, ts, p).Done?
      && Balances.MentionedIn(ts, p)
      && Balances.Net(ts, p, Usd) == -5.0
    ensures var ts := [Row(0, Transfer(u, 0, "", p, q, 5.0, Usd))];
      Distinct(ps) && p in ps ==>
        && p in Balances.ShownPersons(ps, "")
        && p !in Balances.ShownPersons(DeletePerson(ps, ts, p).list, "")
  {
    var r := Row(0, Transfer(u, 0, "", p, q, 5.0, Usd));
    assert [r][..0] == [];
    assert Balances.Opens([r][0].tx, p);
    if Distinct(ps) && p in ps {
      DeletedPersonLeavesDashboard(ps, [r], p, "", map[], Usd);
      Balances.ShownPersonsSpec(ps, "");
    }
  }

  // --------------------------------------------------------------- categories

  /** A category of the buy screen: the stored `value` and the shown `label`, here `title`. */
  datatype Category = Category(value: string, title: string)

  /** The categories the buy screen starts from. */
  const DefaultCategories: seq<Category> := [
    Category("material", "مواد اولیه"), Category("shipping", "حمل و نقل"),
    Category("packaging", "بسته\U{200C}بندی"), Category("other", "سایر")
  ]

  predicate HasValue(cs: seq<Category>, v: string) {
    exists k :: 0 <= k < |cs| && cs[k].value == v
  }

  /** No two categories share a value. */
  predicate DistinctValues(cs: seq<Category>) {
    forall i, j :: 0 <= i < j < |cs| ==> cs[i].value != cs[j].value
  }

  /** `handleAddCategory`: an empty name is ignored, a taken value refused. */
  function AddCategory(cs: seq<Category>, input: string): (r: Outcome<Category>)
    ensures r == Ignored <==> AllWhitespace(input)
    ensures r == Refused(CategoryExists) <==> !AllWhitespace(input) && HasValue(cs, Trim(input))
    ensures r.Done? <==> !AllWhitespace(input) && !HasValue(cs, Trim(input))
    ensures r.Done? ==> r.list == cs + [Category(Trim(input), Trim(input))]
  {
    TrimEmptyIffWhitespace(input);
    var name := Trim(input);
    if name == "" then Ignored
    else if HasValue(cs, name) then Refused(CategoryExists)
    else Done(cs + [Category(name, name)])
  }

  /** `handleEditCategory`: the category with the edited value takes the edited
      label; an edit with an empty value or label is ignored. */
  function EditCategory(cs: seq<Category>, edit: Option<Category>): (r: Outcome<Category>)
    ensures r.Done? <==> edit.Some? && edit.value.value != "" && edit.value.title != ""
    ensures r.Done? ==>
      && |r.list| == |cs|
      && forall k :: 0 <= k < |cs| ==>
           r.list[k] == (if cs[k].value == edit.value.value then edit.value else cs[k])
  {
    if edit.None? || edit.value.value == "" || edit.value.title == "" then Ignored
    else Done(Relabel(cs, edit.value))
  }

  function Relabel(cs: seq<Category>, e: Category): (r: seq<Category>)
    ensures |r| == |cs|
    ensures forall k :: 0 <= k < |cs| ==> r[k] == (if cs[k].value == e.value then e else cs[k])
  {
    if |cs| == 0 then [] else [if cs[0].value == e.value then e else cs[0]] + Relabel(cs[1..], e)
  }

  /** `handleDeleteCategory`. */
  function DeleteCategory(cs: seq<Category>, v: string): (r: seq<Category>)
    ensures forall k :: 0 <= k < |r| ==> r[k].value != v
    ensures forall k :: 0 <= k < |cs| && cs[k].value != v ==> cs[k] in r
    ensures multiset(r) <= multiset(cs)
  {
    if |cs| == 0 then []
    else
      assert cs == [cs[0]] + cs[1..];
      (if cs[0].value != v then [cs[0]] else []) + DeleteCategory(cs[1..], v)
  }

  /** Adding, editing and deleting keep category values distinct. */
  lemma CategoryEditsKeepDistinct(cs: seq<Category>, input: string, edit: Option<Category>, v: string)
    requires DistinctValues(cs)
    ensures AddCategory(cs, input).Done? ==> DistinctValues(AddCategory(cs, input).list)
    ensures EditCategory(cs, edit).Done? ==> DistinctValues(EditCategory(cs, edit).list)
    ensures DistinctValues(DeleteCategory(cs, v))
  {
    if EditCategory(cs, edit).Done? {
      var r := EditCategory(cs, edit).list;
      forall i, j | 0 <= i < j < |r| ensures r[i].value != r[j].value {
        assert r[i].value == cs[i].value && r[j].value == cs[j].value;
      }
    }
    DeleteKeepsDistinct(cs, v);
  }

  lemma {:induction false} DeleteKeepsDistinct(cs: seq<Category>, v: string)
    requires DistinctValues(cs)
    ensures DistinctValues(DeleteCategory(cs, v))
    decreases |cs|
  {
    if |cs| > 0 {
      var tail := cs[1..];
      assert DistinctValues(tail) by {
        forall a, b | 0 <= a < b < |tail| ensures tail[a].value != tail[b].value {
          assert tail[a] == cs[a + 1] && tail[b] == cs[b + 1];
        }
      }
      DeleteKeepsDistinct(tail, v);
      var rest := DeleteCategory(tail, v);
      if cs[0].value != v {
        forall m | 0 <= m < |rest| ensures rest[m].value != cs[0].value {
          assert rest[m] in multiset(tail);
          var k :| 0 <= k < |tail| && tail[k] == rest[m];
          assert cs[k + 1] == rest[m];
        }
        DistinctValuesCons(cs[0], rest);
      }
    }
  }

  lemma DistinctValuesCons(x: Category, rest: seq<Category>)
    requires DistinctValues(rest) && forall m :: 0 <= m < |rest| ==> rest[m].value != x.value
    ensures DistinctValues([x] + rest)
  {
    var r := [x] + rest;
    forall a, b | 0 <= a < b < |r| ensures r[a].value != r[b].value {
      assert r[b] == rest[b - 1];
      if a > 0 {
        assert r[a] == rest[a - 1];
      }
    }
  }
}
