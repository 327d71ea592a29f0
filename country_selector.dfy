/** The country picker: a search box that narrows the country options to those whose label
    contains the typed text, ignoring case, and the lookup of the option already chosen. */
module CountrySelector {
  import opened Seqs

  /** A select option; `name` is the option's `label`. */
  datatype CountryOption = CountryOption(value: string, name: string)

  predicate IsUpper(c: char) { 'A' <= c <= 'Z' }

  function LowerChar(c: char): (r: char)
    ensures !IsUpper(r)
    ensures IsUpper(c) ==> r as int == c as int + 32
    ensures !IsUpper(c) ==> r == c
  {
    if IsUpper(c) then (c as int + 32) as char else c
  }

  /** `toLowerCase`, on the letters A to Z. */
  function ToLower(s: string): (r: string)
    ensures |r| == |s|
    ensures forall i :: 0 <= i < |s| ==> r[i] == LowerChar(s[i])
  {
    seq(|s|, i requires 0 <= i < |s| => LowerChar(s[i]))
  }

  /** Lower-casing twice is lower-casing once. */
  lemma ToLowerIdempotent(s: string)
    ensures ToLower(ToLower(s)) == ToLower(s)
  {
  }

  /** Lower-casing works character by character, so it distributes over concatenation. */
  lemma ToLowerConcat(a: string, b: string)
    ensures ToLower(a + b) == ToLower(a) + ToLower(b)
  {
    assert forall i :: 0 <= i < |a| ==> (a + b)[i] == a[i];
    assert forall i :: |a| <= i < |a| + |b| ==> (a + b)[i] == b[i - |a|];
  }

  /** `s.includes(sub)`: whether `sub` occurs somewhere in `s`, trying each start in turn. */
  function Includes(s: string, sub: string): (found: bool)
    ensures |sub| == 0 ==> found
    ensures |sub| > |s| ==> !found
  {
    if |sub| <= |s| && s[..|sub|] == sub then true
    else if |s| == 0 then false
    else Includes(s[1..], sub)
  }

  /** `sub` is the slice of `s` that starts at `i`. */
  predicate OccursAt(s: string, sub: string, i: int)
  {
    0 <= i && i + |sub| <= |s| && s[i..i + |sub|] == sub
  }

  /** Dropping the first character shifts every occurrence one place to the left. */
  lemma OccursAtTail(s: string, sub: string, i: int)
    requires |s| > 0 && i >= 0
    ensures OccursAt(s[1..], sub, i) <==> OccursAt(s, sub, i + 1)
  {
    if i + 1 + |sub| <= |s| {
      assert s[1..][i..i + |sub|] == s[i + 1..i + 1 + |sub|];
    }
  }

  /** `sub` occurs in `s` exactly when it is the slice of `s` at some position. */
  lemma {:induction false} IncludesIff(s: string, sub: string)
    ensures Includes(s, sub) <==> exists i :: OccursAt(s, sub, i)
  {
    if |sub| <= |s| && s[..|sub|] == sub {
      assert OccursAt(s, sub, 0);
    } else if |s| > 0 {
      IncludesIff(s[1..], sub);
      if i :| OccursAt(s[1..], sub, i) {
        OccursAtTail(s, sub, i);
      }
      if i :| OccursAt(s, sub, i) {
        assert i != 0;
        OccursAtTail(s, sub, i - 1);
      }
    }
  }

  /** The empty text occurs in every string. */
  lemma IncludesEmpty(s: string)
    ensures Includes(s, "")
  {
    assert s[..0] == "";
  }

  /** Whatever contains a text contains every prefix of it. */
  lemma IncludesPrefix(s: string, a: string, b: string)
    requires Includes(s, a + b)
    ensures Includes(s, a)
  {
    IncludesIff(s, a + b);
    var i :| OccursAt(s, a + b, i);
    assert s[i..i + |a|] == (a + b)[..|a|] == a;
    assert OccursAt(s, a, i);
    IncludesIff(s, a);
  }

  /** The filter's test: the lower-cased label contains the lower-cased search text. */
  predicate MatchesSearch(option: CountryOption, search: string)
  {
    Includes(ToLower(option.name), ToLower(search))
  }

  /** `filteredOptions`: the options whose label matches the search, in their given order. */
  function FilteredOptions(options: seq<CountryOption>, search: string): (r: seq<CountryOption>)
    ensures forall o :: o in r <==> o in options && MatchesSearch(o, search)
  {
    Filter(options, o => MatchesSearch(o, search))
  }

  /** With nothing typed, every option is offered, in order. */
  lemma FilteredEmptySearch(options: seq<CountryOption>)
    ensures FilteredOptions(options, "") == options
  {
    forall i | 0 <= i < |options| ensures MatchesSearch(options[i], "") {
      IncludesEmpty(ToLower(options[i].name));
    }
    FilterAll(options, o => MatchesSearch(o, ""));
  }

  /** The search ignores case: typing a text or its lower-case form offers the same
      options. */
  lemma FilteredIgnoresCase(options: seq<CountryOption>, search: string)
    ensures FilteredOptions(options, search) == FilteredOptions(options, ToLower(search))
  {
    ToLowerIdempotent(search);
    FilterCongruent(options, o => MatchesSearch(o, search), o => MatchesSearch(o, ToLower(search)));
  }

  /** Typing more text never brings back an option that was filtered out. */
  lemma FilteredNarrows(options: seq<CountryOption>, search: string, more: string)
    ensures forall o :: o in FilteredOptions(options, search + more) ==> o in FilteredOptions(options, search)
  {
    ToLowerConcat(search, more);
    forall o | o in FilteredOptions(options, search + more) ensures MatchesSearch(o, search) {
      IncludesPrefix(ToLower(o.name), ToLower(search), ToLower(more));
    }
  }

  /** Filtering the filtered options again with the same text changes nothing. */
  lemma FilteredIdempotent(options: seq<CountryOption>, search: string)
    ensures FilteredOptions(FilteredOptions(options, search), search) == FilteredOptions(options, search)
  {
    FilterIdempotent(options, o => MatchesSearch(o, search));
  }

  /** The filter keeps the options' order: it splits along any split of the option list. */
  lemma FilteredKeepsOrder(a: seq<CountryOption>, b: seq<CountryOption>, search: string)
    ensures FilteredOptions(a + b, search) == FilteredOptions(a, search) + FilteredOptions(b, search)
  {
    FilterConcat(a, b, o => MatchesSearch(o, search));
  }

  /** `options.find(country => country.value === selectedValue)`, with `null` as `None`:
      the first option whose value is the selected one; no option matches `null`. */
  function SelectedOption(options: seq<CountryOption>, selected: Option<string>): (r: Option<CountryOption>)
    ensures selected.None? ==> r.None?
    ensures r.None? <==> forall i :: 0 <= i < |options| ==> Some(options[i].value) != selected
    ensures r.Some? ==>
      exists i :: 0 <= i < |options| && options[i] == r.value && Some(r.value.value) == selected &&
        forall j :: 0 <= j < i ==> Some(options[j].value) != selected
  {
    Find(options, (o: CountryOption) => Some(o.value) == selected)
  }

  /** The selector's state: the text typed in the search box. */
  class CountrySelectorState {
    var searchValue: string

    /** `useState('')`. */
    constructor ()
      ensures searchValue == ""
    {
      searchValue := "";
    }

    /** `handleSearchChange`: the search text becomes what was typed. */
    method HandleSearchChange(newValue: string)
      modifies this
      ensures searchValue == newValue
    {
      searchValue := newValue;
    }

    /** The options the select offers for the current search text. */
    function Offered(options: seq<CountryOption>): (r: seq<CountryOption>)
      reads this
      ensures forall o :: o in r ==> o in options
    {
      FilteredOptions(options, searchValue)
    }
  }

  /** A freshly opened selector offers every option. */
  method OpenSelector(options: seq<CountryOption>) returns (state: CountrySelectorState, offered: seq<CountryOption>)
    ensures fresh(state) && state.searchValue == ""
    ensures offered == options
  {
    state := new CountrySelectorState();
    offered := state.Offered(options);
    FilteredEmptySearch(options);
  }

  /** A lower-case letter absent from `s` in both cases is absent from its lower-case form. */
  lemma LowerAvoids(s: string, c: char, upper: char)
    requires !IsUpper(c) && IsUpper(upper) && c as int == upper as int + 32
    requires c !in s && upper !in s
    ensures c !in ToLower(s)
  {
    forall i | 0 <= i < |s| ensures ToLower(s)[i] != c {
      assert s[i] != c && s[i] != upper;
    }
  }

  /** A text that holds a character absent from `s` does not occur in `s`. */
  lemma NotIncludes(s: string, sub: string, k: int)
    requires 0 <= k < |sub| && sub[k] !in s
    ensures !Includes(s, sub)
  {
    IncludesIff(s, sub);
  }

  /** The options of the controls' test: typing `Can` offers only Canada. */
  lemma SearchExample()
    ensures FilteredOptions([CountryOption("us", "United States"), CountryOption("ca", "Canada")], "Can")
         == [CountryOption("ca", "Canada")]
  {
    var us := CountryOption("us", "United States");
    var ca := CountryOption("ca", "Canada");
    UnitedStatesMissesCan();
    CanadaMatchesCan();
    FilteredKeepsOrder([us], [ca], "Can");
  }

  lemma CanadaMatchesCan()
    ensures FilteredOptions([CountryOption("ca", "Canada")], "Can") == [CountryOption("ca", "Canada")]
  {
    assert ToLower("Can") == "can";
    assert ToLower("Canada") == "canada";
    assert "canada"[..3] == "can";
    assert MatchesSearch(CountryOption("ca", "Canada"), "Can");
  }

  lemma UnitedStatesMissesCan()
    ensures FilteredOptions([CountryOption("us", "United States")], "Can") == []
  {
    assert ToLower("Can")[0] == 'c';
    LowerAvoids("United States", 'c', 'C');
    NotIncludes(ToLower("United States"), ToLower("Can"), 0);
    assert !MatchesSearch(CountryOption("us", "United States"), "Can");
  }

  /** The chosen value `us` selects United States. */
  lemma SelectedExample()
    ensures SelectedOption([CountryOption("us", "United States"), CountryOption("ca", "Canada")], Some("us"))
         == Some(CountryOption("us", "United States"))
  {
  }
}
