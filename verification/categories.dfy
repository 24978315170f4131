/**
 The keyword classifier that groups the funds of a report or of the monthly
 annex into six categories (`categorizar_fondos`). The function appears
 twice in the system, once per module, with identical bodies; it is defined
 once here.

 A fund's lower-cased name is matched against word lists in a fixed priority
 order and the first rule that matches decides. Only the first rule needs
 two lists to match: a fixed-income word and a Chile word.
 */
module Categories {
  import opened Text

  datatype Category = DomesticFixedIncome | ForeignFixedIncome | Balanced | Equity | Alternatives | Others

  /** The dict key of each category, in the order the dict is built. */
  function Key(c: Category): string {
    match c
    case DomesticFixedIncome => "Renta Fija Nacional"
    case ForeignFixedIncome => "Renta Fija Internacional"
    case Balanced => "Multifondos"
    case Equity => "Equity (Acciones)"
    case Alternatives => "Estrategias Alternativas"
    case Others => "Otros"
  }

  const AllCategories: seq<Category> :=
    [DomesticFixedIncome, ForeignFixedIncome, Balanced, Equity, Alternatives, Others]

  const DebtWords: seq<string> := ["renta", "bonos", "deuda"]
  const ChileWords: seq<string> := ["chile", "chileno", "nacional"]
  const ForeignDebtWords: seq<string> := ["renta", "bonos", "deuda", "fixed income"]
  const BalancedWords: seq<string> := ["multiactivo", "cartera", "patrimonial"]
  const EquityWords: seq<string> := ["equity", "acciones", "accionario"]
  const AlternativeWords: seq<string> := ["dynamic", "estrategia", "alternativa", "hedge"]

  /**
   The category of one fund name: the `if`/`elif` chain over the lower-cased
   name. A name falls in `Others` exactly when it contains none of the words
   of the single-list rules: a domestic fixed-income name also contains a
   word of the foreign fixed-income list.
   */
  function CategoryOf(fund: string): (c: Category)
    ensures c == DomesticFixedIncome <==> ContainsAny(Lower(fund), DebtWords) && ContainsAny(Lower(fund), ChileWords)
    ensures c == Others <==> (!ContainsAny(Lower(fund), ForeignDebtWords) && !ContainsAny(Lower(fund), BalancedWords)
                              && !ContainsAny(Lower(fund), EquityWords) && !ContainsAny(Lower(fund), AlternativeWords))
  {
    var low := Lower(fund);
    if ContainsAny(low, DebtWords) && ContainsAny(low, ChileWords) then
      DebtWordsAreForeignDebtWords(low);
      DomesticFixedIncome
    else if ContainsAny(low, ForeignDebtWords) then ForeignFixedIncome
    else if ContainsAny(low, BalancedWords) then Balanced
    else if ContainsAny(low, EquityWords) then Equity
    else if ContainsAny(low, AlternativeWords) then Alternatives
    else Others
  }

  lemma DebtWordsAreForeignDebtWords(s: string)
    requires ContainsAny(s, DebtWords)
    ensures ContainsAny(s, ForeignDebtWords)
  {
    var k :| 0 <= k < |DebtWords| && Contains(s, DebtWords[k]);
    assert ForeignDebtWords[k] == DebtWords[k];
  }

  // ---------------------------------------------------------------------------
  // The same classifier as a priority-ordered rule table
  // ---------------------------------------------------------------------------

  /** A rule: every one of its word lists must have a word in the name. */
  datatype Rule = Rule(lists: seq<seq<string>>, category: Category)

  predicate Matches(r: Rule, low: string) {
    forall g :: 0 <= g < |r.lists| ==> ContainsAny(low, r.lists[g])
  }

  const Rules: seq<Rule> := [
    Rule([DebtWords, ChileWords], DomesticFixedIncome),
    Rule([ForeignDebtWords], ForeignFixedIncome),
    Rule([BalancedWords], Balanced),
    Rule([EquityWords], Equity),
    Rule([AlternativeWords], Alternatives)
  ]

  /** The category of the first rule that matches, or `Others` when none does. */
  function FirstMatch(rules: seq<Rule>, low: string): (c: Category)
    ensures c == Others || exists i :: 0 <= i < |rules| && Matches(rules[i], low) && rules[i].category == c
    ensures (forall i :: 0 <= i < |rules| ==> !Matches(rules[i], low)) ==> c == Others
  {
    if |rules| == 0 then Others
    else if Matches(rules[0], low) then rules[0].category
    else FirstMatch(rules[1..], low)
  }

  /** The first matching rule decides: no earlier rule matched. */
  lemma {:induction false} FirstMatchIsFirst(rules: seq<Rule>, low: string, i: nat)
    requires i < |rules| && Matches(rules[i], low)
    requires forall j :: 0 <= j < i ==> !Matches(rules[j], low)
    ensures FirstMatch(rules, low) == rules[i].category
  {
    if i > 0 {
      FirstMatchIsFirst(rules[1..], low, i - 1);
    }
  }

  /** A rule with one word list matches when the name has one of its words. */
  lemma MatchesOneList(words: seq<string>, c: Category, low: string)
    ensures Matches(Rule([words], c), low) <==> ContainsAny(low, words)
  {
    assert Rule([words], c).lists[0] == words;
  }

  /** A rule with two word lists matches when the name has a word of each. */
  lemma MatchesTwoLists(a: seq<string>, b: seq<string>, c: Category, low: string)
    ensures Matches(Rule([a, b], c), low) <==> ContainsAny(low, a) && ContainsAny(low, b)
  {
    var r := Rule([a, b], c);
    assert r.lists[0] == a && r.lists[1] == b;
    if ContainsAny(low, a) && ContainsAny(low, b) {
      forall g | 0 <= g < |r.lists| ensures ContainsAny(low, r.lists[g]) {
      }
    }
  }

  /** The `if`/`elif` chain is the rule table read in priority order. */
  lemma CategoryOfIsFirstMatch(fund: string)
    ensures CategoryOf(fund) == FirstMatch(Rules, Lower(fund))
  {
    var low := Lower(fund);
    var r0 := Rules;
    assert r0[0] == Rule([DebtWords, ChileWords], DomesticFixedIncome);
    MatchesTwoLists(DebtWords, ChileWords, DomesticFixedIncome, low);
    var r1 := r0[1..];
    var r2 := r1[1..];
    var r3 := r2[1..];
    var r4 := r3[1..];
    assert r1[0] == Rule([ForeignDebtWords], ForeignFixedIncome);
    assert r2[0] == Rule([BalancedWords], Balanced);
    assert r3[0] == Rule([EquityWords], Equity);
    assert r4 == [Rule([AlternativeWords], Alternatives)];
    MatchesOneList(ForeignDebtWords, ForeignFixedIncome, low);
    MatchesOneList(BalancedWords, Balanced, low);
    MatchesOneList(EquityWords, Equity, low);
    MatchesOneList(AlternativeWords, Alternatives, low);
    assert FirstMatch(r4[1..], low) == Others;
    assert FirstMatch(r4, low) == (if Matches(r4[0], low) then Alternatives else Others);
    assert FirstMatch(r3, low) == (if Matches(r3[0], low) then Equity else FirstMatch(r4, low));
    assert FirstMatch(r2, low) == (if Matches(r2[0], low) then Balanced else FirstMatch(r3, low));
    assert FirstMatch(r1, low) == (if Matches(r1[0], low) then ForeignFixedIncome else FirstMatch(r2, low));
    assert FirstMatch(r0, low) == (if Matches(r0[0], low) then DomesticFixedIncome else FirstMatch(r1, low));
  }

  // ---------------------------------------------------------------------------
  // The category dict
  // ---------------------------------------------------------------------------

  /** The funds of category `c`, in input order. */
  function Members(funds: seq<string>, c: Category): (r: seq<string>)
    ensures |r| <= |funds|
    ensures forall f :: f in r <==> f in funds && CategoryOf(f) == c
  {
    if |funds| == 0 then []
    else
      var n := |funds| - 1;
      assert forall f :: f in funds <==> f in funds[..n] || f == funds[n];
      Members(funds[..n], c) + (if CategoryOf(funds[n]) == c then [funds[n]] else [])
  }

  lemma AllCategoriesComplete(c: Category)
    ensures c in AllCategories
  {
    match c
    case DomesticFixedIncome => assert AllCategories[0] == c;
    case ForeignFixedIncome => assert AllCategories[1] == c;
    case Balanced => assert AllCategories[2] == c;
    case Equity => assert AllCategories[3] == c;
    case Alternatives => assert AllCategories[4] == c;
    case Others => assert AllCategories[5] == c;
  }

  /**
   `categorizar_fondos(fondos_unicos)`: every category is a key, and a fund is
   listed under a category exactly when it is an input fund of that category.
   */
  function Categorize(funds: seq<string>): (m: map<Category, seq<string>>)
    ensures forall c: Category :: c in m
    ensures forall c: Category, f :: c in m ==> (f in m[c] <==> f in funds && CategoryOf(f) == c)
  {
    assert forall c: Category :: c in AllCategories by {
      forall c: Category ensures c in AllCategories { AllCategoriesComplete(c); }
    }
    map c: Category | c in AllCategories :: Members(funds, c)
  }

  /** The six member lists' lengths together. */
  function Listed(funds: seq<string>): nat {
    |Members(funds, DomesticFixedIncome)| + |Members(funds, ForeignFixedIncome)|
    + |Members(funds, Balanced)| + |Members(funds, Equity)|
    + |Members(funds, Alternatives)| + |Members(funds, Others)|
  }

  lemma {:induction false} ListedIsAll(funds: seq<string>)
    ensures Listed(funds) == |funds|
  {
    if |funds| > 0 {
      var n := |funds| - 1;
      var init, f := funds[..n], funds[n];
      ListedIsAll(init);
      assert funds == init + [f];
      MembersStep(init, f, DomesticFixedIncome);
      MembersStep(init, f, ForeignFixedIncome);
      MembersStep(init, f, Balanced);
      MembersStep(init, f, Equity);
      MembersStep(init, f, Alternatives);
      MembersStep(init, f, Others);
    }
  }

  lemma MembersStep(init: seq<string>, f: string, c: Category)
    ensures Members(init + [f], c) == Members(init, c) + (if CategoryOf(f) == c then [f] else [])
  {
    var funds := init + [f];
    assert funds[..|funds| - 1] == init;
  }

  /**
   Every input fund, repeats included, is listed once: the six lists hold as
   many names as the input, and each name only under its own category.
   */
  lemma CategorizePartitions(funds: seq<string>)
    ensures var m := Categorize(funds);
            |m[DomesticFixedIncome]| + |m[ForeignFixedIncome]| + |m[Balanced]|
            + |m[Equity]| + |m[Alternatives]| + |m[Others]| == |funds|
  {
    ListedIsAll(funds);
    var m := Categorize(funds);
    assert forall c: Category :: c in AllCategories ==> m[c] == Members(funds, c);
    AllCategoriesComplete(DomesticFixedIncome);
  }
}
