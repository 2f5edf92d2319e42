/** The `timezone` autocomplete handler `get_timezones`: up to 25 catalog
    labels for what the user has typed so far, the fuzzy matches last. */
module Autocomplete {

  /** Discord accepts at most 25 autocomplete choices; also the `n` passed to
      the fuzzy matcher. */
  const MaxChoices: nat := 25

  /** The similarity cutoff passed to the fuzzy matcher. */
  const CloseMatchCutoff: real := 0.6

  /** One autocomplete choice: the label shown and the value sent back. */
  datatype Choice = Choice(name: string, value: string)

  /** `difflib.get_close_matches(word, possibilities, n, cutoff)`; its
      similarity scoring is not modelled, only what it promises about its
      result (CloseMatchContract). */
  type CloseMatcher = (string, set<string>, nat, real) -> seq<string>

  /** No element occurs twice. */
  predicate Distinct(s: seq<string>)
  {
    s == [] || (s[0] !in s[1..] && Distinct(s[1..]))
  }

  /** Distinct means what it says: no two positions hold the same element. */
  lemma {:induction false} DistinctIff(s: seq<string>)
    ensures Distinct(s) <==> forall i, j :: 0 <= i < j < |s| ==> s[i] != s[j]
  {
    if s != [] {
      DistinctIff(s[1..]);
      if Distinct(s) {
        forall i, j | 0 <= i < j < |s| ensures s[i] != s[j] {
          if i == 0 {
            assert s[j] == s[1..][j - 1];
          } else {
            assert s[i] == s[1..][i - 1] && s[j] == s[1..][j - 1];
          }
        }
      }
      if forall i, j :: 0 <= i < j < |s| ==> s[i] != s[j] {
        forall j | 0 <= j < |s| - 1 ensures s[1..][j] != s[0] {
          assert s[1..][j] == s[j + 1];
        }
        forall i, j | 0 <= i < j < |s| - 1 ensures s[1..][i] != s[1..][j] {
          assert s[1..][i] == s[i + 1] && s[1..][j] == s[j + 1];
        }
      }
    }
  }

  lemma {:induction false} DistinctConcat(a: seq<string>, b: seq<string>)
    requires Distinct(a) && Distinct(b)
    requires forall x :: x in a ==> x !in b
    ensures Distinct(a + b)
  {
    if a != [] {
      assert (a + b)[0] == a[0] && (a + b)[1..] == a[1..] + b;
      DistinctConcat(a[1..], b);
      assert a[0] in a;
      assert a[0] !in a[1..] + b;
    } else {
      assert a + b == b;
    }
  }

  lemma {:induction false} DistinctPrefix(s: seq<string>, k: nat)
    requires Distinct(s) && k <= |s|
    ensures Distinct(s[..k])
  {
    if k > 0 {
      assert s[..k][0] == s[0] && s[..k][1..] == s[1..][..k - 1];
      DistinctPrefix(s[1..], k - 1);
      assert forall x :: x in s[1..][..k - 1] ==> x in s[1..];
    }
  }

  /** The set of a list's elements, Python's `set(s)`. */
  function Elements(s: seq<string>): (elements: set<string>)
    ensures forall x :: x in elements <==> x in s
  {
    set x | x in s
  }

  /** What get_close_matches returns: at most `n` distinct members of
      `possibilities`. */
  predicate CloseMatchContract(matches: seq<string>, possibilities: set<string>, n: nat)
  {
    |matches| <= n && Distinct(matches) && forall m :: m in matches ==> m in possibilities
  }

  /** The call made by get_timezones: word=current, possibilities=the
      catalog labels, cutoff=0.6, n=25. */
  function CloseMatches(catalog: map<string, string>, matcher: CloseMatcher, current: string): seq<string>
  {
    matcher(current, catalog.Keys, MaxChoices, CloseMatchCutoff)
  }

  /** `s` lists the set `elements` once each, in some order (the iteration
      order of a Python set). */
  ghost predicate Enumerates(s: seq<string>, elements: set<string>)
  {
    Distinct(s) && forall x :: x in s <==> x in elements
  }

  /** `s.lower()`, with the per-character case mapping `lower` left abstract. */
  function Lowered(lower: char -> char, s: string): (r: string)
    ensures |r| == |s|
    ensures forall i :: 0 <= i < |s| ==> r[i] == lower(s[i])
  {
    if s == [] then [] else [lower(s[0])] + Lowered(lower, s[1..])
  }

  /** `label.lower().startswith(current.lower())`: the query is no longer
      than the label and agrees with it, position by position, once both are
      lowered. */
  predicate StartsWithIgnoringCase(lower: char -> char, name: string, current: string)
    ensures StartsWithIgnoringCase(lower, name, current) <==>
      |current| <= |name| && forall i :: 0 <= i < |current| ==> lower(current[i]) == lower(name[i])
  {
    Lowered(lower, current) <= Lowered(lower, name)
  }

  /** The empty query is a prefix of every label. */
  lemma EmptyQueryIsPrefix(lower: char -> char, name: string)
    ensures StartsWithIgnoringCase(lower, name, "")
  {
    assert Lowered(lower, "") == [];
  }

  /** The `starts_with` list comprehension over `candidates`, kept in the
      order of `candidates`. */
  function PrefixMatches(lower: char -> char, current: string, candidates: seq<string>): (r: seq<string>)
    ensures forall x :: x in r <==> x in candidates && StartsWithIgnoringCase(lower, x, current)
    ensures Distinct(candidates) ==> Distinct(r)
    ensures |r| <= |candidates|
  {
    if candidates == [] then []
    else
      var rest := PrefixMatches(lower, current, candidates[1..]);
      if StartsWithIgnoringCase(lower, candidates[0], current) then [candidates[0]] + rest else rest
  }

  /** Python's `s[:k]`; a negative `k` counts from the end. */
  function SliceTo(s: seq<string>, k: int): (r: seq<string>)
    ensures |r| == if k < 0 then (if |s| + k < 0 then 0 else |s| + k) else if k < |s| then k else |s|
    ensures r <= s
  {
    if k < 0 then (if |s| + k < 0 then [] else s[..|s| + k])
    else if k < |s| then s[..k]
    else s
  }

  /** `view_order`: the prefix matches cut to what the close matches leave of
      the 25 slots, then the close matches. `options` is the set of catalog
      labels, `differenceOrder` the iteration order of
      `options.difference(close_match)`, which Python leaves unspecified. */
  function ViewOrder(options: set<string>, lower: char -> char, current: string,
                     closeMatch: seq<string>, differenceOrder: seq<string>): (viewOrder: seq<string>)
    requires CloseMatchContract(closeMatch, options, MaxChoices)
    requires Enumerates(differenceOrder, options - Elements(closeMatch))
    // at most 25 catalog labels, none twice
    ensures |viewOrder| <= MaxChoices
    ensures forall x :: x in viewOrder ==> x in options
    ensures Distinct(viewOrder)
    // every close match is offered, in the matcher's order, after everything else
    ensures |closeMatch| <= |viewOrder| && viewOrder[|viewOrder| - |closeMatch|..] == closeMatch
    // the labels before them are prefix matches that are not close matches
    ensures forall i :: 0 <= i < |viewOrder| - |closeMatch| ==>
      viewOrder[i] !in closeMatch && StartsWithIgnoringCase(lower, viewOrder[i], current)
    // with 25 close matches no prefix match is offered
    ensures |closeMatch| == MaxChoices ==> viewOrder == closeMatch
    // a prefix match is left out only when the 25 slots are all taken
    ensures forall x :: x in options && x !in closeMatch && StartsWithIgnoringCase(lower, x, current) ==>
      x in viewOrder || |viewOrder| == MaxChoices
  {
    var startsWith := PrefixMatches(lower, current, differenceOrder);
    var cutoffPoint := MaxChoices - |closeMatch|;
    var prefixPart := SliceTo(startsWith, cutoffPoint);
    assert forall x :: x in prefixPart ==> x in startsWith && x !in closeMatch;
    DistinctPrefix(startsWith, |prefixPart|);
    DistinctConcat(prefixPart, closeMatch);
    assert forall i :: 0 <= i < |prefixPart| ==> (prefixPart + closeMatch)[i] == prefixPart[i];
    prefixPart + closeMatch
  }

  /** The final comprehension: each label paired with its zone identifier. */
  function ToChoices(catalog: map<string, string>, names: seq<string>): (choices: seq<Choice>)
    requires forall n :: n in names ==> n in catalog
    ensures |choices| == |names|
    ensures forall i :: 0 <= i < |names| ==> choices[i] == Choice(names[i], catalog[names[i]])
  {
    if names == [] then [] else [Choice(names[0], catalog[names[0]])] + ToChoices(catalog, names[1..])
  }

  function Names(choices: seq<Choice>): (names: seq<string>)
    ensures |names| == |choices|
    ensures forall i :: 0 <= i < |choices| ==> names[i] == choices[i].name
  {
    if choices == [] then [] else [choices[0].name] + Names(choices[1..])
  }

  /** get_timezones: the labels of ViewOrder, each paired with the zone the
      catalog maps it to. */
  function GetTimezones(catalog: map<string, string>, lower: char -> char, matcher: CloseMatcher,
                        current: string, differenceOrder: seq<string>): (choices: seq<Choice>)
    requires CloseMatchContract(CloseMatches(catalog, matcher, current), catalog.Keys, MaxChoices)
    requires Enumerates(differenceOrder, catalog.Keys - Elements(CloseMatches(catalog, matcher, current)))
    ensures |choices| <= MaxChoices
    ensures forall c :: c in choices ==> c.name in catalog && c.value == catalog[c.name]
    ensures Names(choices) == ViewOrder(catalog.Keys, lower, current, CloseMatches(catalog, matcher, current), differenceOrder)
  {
    var options := catalog.Keys;
    var closeMatch := matcher(current, options, MaxChoices, CloseMatchCutoff);
    var viewOrder := ViewOrder(options, lower, current, closeMatch, differenceOrder);
    var choices := ToChoices(catalog, viewOrder);
    assert Names(choices) == viewOrder;
    choices
  }

  /** A sequence without repeats has as many elements as its set. */
  lemma {:induction false} DistinctCardinality(s: seq<string>)
    requires Distinct(s)
    ensures |Elements(s)| == |s|
  {
    if s != [] {
      DistinctCardinality(s[1..]);
      assert Elements(s) == {s[0]} + Elements(s[1..]);
    }
  }

  lemma {:induction false} SubsetCardinality(a: set<string>, b: set<string>)
    requires a <= b
    ensures |a| <= |b|
    decreases a
  {
    if a != {} {
      var x :| x in a;
      SubsetCardinality(a - {x}, b - {x});
    }
  }

  /** Two repeat-free sequences with the same elements have the same length. */
  lemma SameElementsSameLength(s: seq<string>, t: seq<string>)
    requires Distinct(s) && Distinct(t)
    requires forall x :: x in s <==> x in t
    ensures |s| == |t|
  {
    DistinctCardinality(s);
    DistinctCardinality(t);
    assert Elements(s) == Elements(t);
  }

  /** What get_timezones offers does not depend on the iteration order of
      the set of candidates: the same number of labels, and when every
      prefix match fits, the same labels. Only which prefix matches survive
      the cut at 25 depends on the order. */
  lemma ViewOrderIndependentOfSetOrder(options: set<string>, lower: char -> char, current: string,
                                       closeMatch: seq<string>, order1: seq<string>, order2: seq<string>)
    requires CloseMatchContract(closeMatch, options, MaxChoices)
    requires Enumerates(order1, options - Elements(closeMatch))
    requires Enumerates(order2, options - Elements(closeMatch))
    ensures var view1 := ViewOrder(options, lower, current, closeMatch, order1);
      var view2 := ViewOrder(options, lower, current, closeMatch, order2);
      && |view1| == |view2|
      && (|view1| < MaxChoices ==> Elements(view1) == Elements(view2))
  {
    var starts1 := PrefixMatches(lower, current, order1);
    var starts2 := PrefixMatches(lower, current, order2);
    SameElementsSameLength(starts1, starts2);
    var view1 := ViewOrder(options, lower, current, closeMatch, order1);
    var view2 := ViewOrder(options, lower, current, closeMatch, order2);
    if |view1| < MaxChoices {
      assert view1 == starts1 + closeMatch;
      assert view2 == starts2 + closeMatch;
    }
  }

  /** An empty query is a prefix of every label, so with 25 or more labels in
      the catalog all 25 slots are filled. */
  lemma EmptyQueryFillsAllSlots(options: set<string>, lower: char -> char, closeMatch: seq<string>,
                                differenceOrder: seq<string>)
    requires CloseMatchContract(closeMatch, options, MaxChoices)
    requires Enumerates(differenceOrder, options - Elements(closeMatch))
    requires |options| >= MaxChoices
    ensures |ViewOrder(options, lower, "", closeMatch, differenceOrder)| == MaxChoices
  {
    var view := ViewOrder(options, lower, "", closeMatch, differenceOrder);
    if |view| < MaxChoices {
      forall x | x in options ensures x in Elements(view) {
        EmptyQueryIsPrefix(lower, x);
        if x in closeMatch {
          var i :| 0 <= i < |closeMatch| && closeMatch[i] == x;
          assert view[|view| - |closeMatch|..][i] == x;
        }
      }
      DistinctCardinality(view);
      SubsetCardinality(options, Elements(view));
    }
  }

  /** When the fuzzy matcher finds nothing and no label starts with the
      query, nothing is offered. */
  lemma NoMatchNoChoices(options: set<string>, lower: char -> char, current: string,
                         differenceOrder: seq<string>)
    requires Enumerates(differenceOrder, options)
    requires forall x :: x in options ==> !StartsWithIgnoringCase(lower, x, current)
    ensures ViewOrder(options, lower, current, [], differenceOrder) == []
  {
    assert options - Elements([]) == options;
  }

  /** A repeat-free list that holds `x` and nothing else is `[x]`. */
  lemma DistinctSingleton(s: seq<string>, x: string)
    requires Distinct(s) && x in s
    requires forall y :: y in s ==> y == x
    ensures s == [x]
  {
    DistinctCardinality(s);
    assert Elements(s) == {x};
    assert s[0] in s;
  }

  /** With the single label `name` as the only option, typing that label
      puts it in view exactly once, whether or not the fuzzy matcher found
      it. */
  lemma SingleLabelView(name: string, lower: char -> char, closeMatch: seq<string>, order: seq<string>)
    requires CloseMatchContract(closeMatch, {name}, MaxChoices)
    requires Enumerates(order, {name} - Elements(closeMatch))
    ensures ViewOrder({name}, lower, name, closeMatch, order) == [name]
  {
    var view := ViewOrder({name}, lower, name, closeMatch, order);
    DistinctCardinality(view);
    SubsetCardinality(Elements(view), {name});
    if name in closeMatch {
      var i :| 0 <= i < |closeMatch| && closeMatch[i] == name;
      assert view[|view| - |closeMatch|..][i] == name;
    } else {
      assert StartsWithIgnoringCase(lower, name, name);
    }
    DistinctSingleton(view, name);
  }

  /** A catalog holding the single label `name`: typing that label offers
      exactly the one choice (name, zone), whatever the fuzzy matcher returns
      within its contract and whatever the set iteration order. */
  lemma SingleLabelOffered(name: string, zone: string, lower: char -> char, matcher: CloseMatcher,
                           order: seq<string>)
    requires CloseMatchContract(CloseMatches(map[name := zone], matcher, name), {name}, MaxChoices)
    requires Enumerates(order, {name} - Elements(CloseMatches(map[name := zone], matcher, name)))
    ensures GetTimezones(map[name := zone], lower, matcher, name, order) == [Choice(name, zone)]
  {
    var catalog := map[name := zone];
    assert catalog.Keys == {name};
    SingleLabelView(name, lower, CloseMatches(catalog, matcher, name), order);
    var choices := GetTimezones(catalog, lower, matcher, name, order);
    assert Names(choices)[0] == choices[0].name;
    assert choices[0] in choices;
  }
}
