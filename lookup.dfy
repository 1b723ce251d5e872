/**
  The per-ingredient nutrition pass: for each selected fruit, in selection
  order, either skip it (not in the index, no SEARCH_ON value, or a blank one)
  or request `https://my.smoothiefroot.com/api/fruit/<key>` and record whether
  the request and the display of its answer went through.
 */
module Lookup {
  import opened Catalog

  const ApiPrefix: string := "https://my.smoothiefroot.com/api/fruit/"

  /** Python's `str.isspace` character set, which `str.strip()` removes at both ends. */
  predicate IsSpace(c: char)
  {
    || '\U{9}' <= c <= '\U{D}'
    || '\U{1C}' <= c <= '\U{20}'
    || c == '\U{85}' || c == '\U{A0}' || c == '\U{1680}'
    || '\U{2000}' <= c <= '\U{200A}'
    || c == '\U{2028}' || c == '\U{2029}' || c == '\U{202F}' || c == '\U{205F}' || c == '\U{3000}'
  }

  /** The first position at or after `i` that does not hold whitespace (or the end). */
  function SkipSpace(s: string, i: nat): (n: nat)
    requires i <= |s|
    ensures i <= n <= |s|
    ensures forall k :: i <= k < n ==> IsSpace(s[k])
    ensures n == |s| || !IsSpace(s[n])
    decreases |s| - i
  {
    if i < |s| && IsSpace(s[i]) then SkipSpace(s, i + 1) else i
  }

  /** The end of `s[..j]` once the whitespace before `j` is dropped. */
  function SkipSpaceBack(s: string, j: nat): (n: nat)
    requires j <= |s|
    ensures n <= j
    ensures forall k :: n <= k < j ==> IsSpace(s[k])
    ensures n == 0 || !IsSpace(s[n - 1])
  {
    if j > 0 && IsSpace(s[j - 1]) then SkipSpaceBack(s, j - 1) else j
  }

  /**
    `str.strip()`: `s` without the whitespace at either end. It is empty exactly
    when `s` is all whitespace, and otherwise starts and ends with a non-space
    character.
   */
  function Strip(s: string): (t: string)
    ensures |t| <= |s|
    ensures t == [] <==> forall k :: 0 <= k < |s| ==> IsSpace(s[k])
    ensures t == [] || (!IsSpace(t[0]) && !IsSpace(t[|t| - 1]))
  {
    var i := SkipSpace(s, 0);
    if i == |s| then "" else s[i..SkipSpaceBack(s, |s|)]
  }

  lemma {:induction false} SkipSpaceAt(s: string, from: nat, i: nat)
    requires from <= i < |s| && !IsSpace(s[i])
    requires forall k :: from <= k < i ==> IsSpace(s[k])
    ensures SkipSpace(s, from) == i
    decreases |s| - from
  {
    if from < i {
      SkipSpaceAt(s, from + 1, i);
    }
  }

  lemma {:induction false} SkipSpaceBackAt(s: string, end: nat, j: nat)
    requires 0 < j <= end <= |s| && !IsSpace(s[j - 1])
    requires forall k :: j <= k < end ==> IsSpace(s[k])
    ensures SkipSpaceBack(s, end) == j
    decreases end
  {
    if j < end {
      SkipSpaceBackAt(s, end - 1, j);
    }
  }

  /**
    Any split of `s` into whitespace, a core that neither starts nor ends with
    whitespace, and whitespace, has `Strip(s)` as its core.
   */
  lemma StripUnique(s: string, i: nat, j: nat)
    requires i <= j <= |s|
    requires forall k :: 0 <= k < i ==> IsSpace(s[k])
    requires forall k :: j <= k < |s| ==> IsSpace(s[k])
    requires i == j || (!IsSpace(s[i]) && !IsSpace(s[j - 1]))
    ensures Strip(s) == s[i..j]
  {
    if i == j {
      assert forall k :: 0 <= k < |s| ==> IsSpace(s[k]);
    } else {
      SkipSpaceAt(s, 0, i);
      SkipSpaceBackAt(s, |s|, j);
    }
  }

  /** Stripping what is already stripped changes nothing. */
  lemma StripIdempotent(s: string)
    ensures Strip(Strip(s)) == Strip(s)
  {
    var t := Strip(s);
    if t != [] {
      StripUnique(t, 0, |t|);
    }
  }

  /** What `requests.get`, `raise_for_status`, `resp.json()` and the table display did. */
  datatype Reply = Delivered | Failed

  /** What the pass recorded for one selected fruit. */
  datatype Outcome =
    | NotInCatalog(fruit: string)
    | MissingKey(fruit: string)
    | BlankKey(fruit: string)
    | Shown(fruit: string, url: string)
    | LookupFailed(fruit: string, url: string)
  {
    predicate Attempted() { Shown? || LookupFailed? }
  }

  /** The fruit's key is present, not None, not NaN, and not blank once stripped. */
  predicate Eligible(index: map<string, Key>, fruit: string)
  {
    fruit in index && index[fruit].Str? && Strip(index[fruit].text) != []
  }

  /**
    The decision for the fruit at position `pos` of the selection; `network`
    answers the request made for that position, so a failure is local to it.
   */
  function Decide(index: map<string, Key>, fruit: string, pos: nat,
                  network: (nat, string) -> Reply): (o: Outcome)
    ensures o.fruit == fruit
    ensures o.NotInCatalog? <==> fruit !in index
    ensures o.MissingKey? <==> fruit in index && (index[fruit].Null? || index[fruit].NaN?)
    ensures o.BlankKey? <==> fruit in index && index[fruit].Str? && Strip(index[fruit].text) == []
    ensures o.Attempted() <==> Eligible(index, fruit)
    ensures o.Attempted() ==>
      && |o.url| > |ApiPrefix| && o.url[..|ApiPrefix|] == ApiPrefix
      && o.url[|ApiPrefix|..] == Strip(index[fruit].text)
      && !IsSpace(o.url[|ApiPrefix|]) && !IsSpace(o.url[|o.url| - 1])
      && (o.Shown? <==> network(pos, o.url) == Delivered)
  {
    if fruit !in index then NotInCatalog(fruit)
    else if index[fruit].Null? || index[fruit].NaN? then MissingKey(fruit)
    else
      var key := Strip(index[fruit].text);
      if key == [] then BlankKey(fruit)
      else
        var url := ApiPrefix + key;
        assert url[..|ApiPrefix|] == ApiPrefix && url[|ApiPrefix|..] == key;
        assert url[|ApiPrefix|] == key[0] && url[|url| - 1] == key[|key| - 1];
        if network(pos, url) == Delivered then Shown(fruit, url) else LookupFailed(fruit, url)
  }

  function CountEligible(index: map<string, Key>, selection: seq<string>): nat
  {
    if selection == [] then 0
    else
      var n := |selection| - 1;
      CountEligible(index, selection[..n]) + (if Eligible(index, selection[n]) then 1 else 0)
  }

  function Attempts(outcomes: seq<Outcome>): nat
  {
    if outcomes == [] then 0
    else
      var n := |outcomes| - 1;
      Attempts(outcomes[..n]) + (if outcomes[n].Attempted() then 1 else 0)
  }

  /** Outcomes decided fruit by fruit make exactly one request per eligible fruit. */
  lemma {:induction false} AttemptsCountEligible(index: map<string, Key>, selection: seq<string>,
                                                 network: (nat, string) -> Reply, outcomes: seq<Outcome>)
    requires |outcomes| == |selection|
    requires forall k :: 0 <= k < |selection| ==>
      outcomes[k] == Decide(index, selection[k], k, network)
    ensures Attempts(outcomes) == CountEligible(index, selection)
  {
    if selection != [] {
      var n := |selection| - 1;
      AttemptsCountEligible(index, selection[..n], network, outcomes[..n]);
    }
  }

  /**
    The loop at the heart of the form: one outcome per selected fruit, in
    selection order. A skip or a failed request for one fruit only decides that
    fruit's outcome; the loop goes on with the next one.
   */
  method LookupPass(index: map<string, Key>, selection: seq<string>,
                    network: (nat, string) -> Reply) returns (outcomes: seq<Outcome>)
    ensures |outcomes| == |selection|
    ensures forall k :: 0 <= k < |selection| ==>
      outcomes[k] == Decide(index, selection[k], k, network)
    ensures Attempts(outcomes) == CountEligible(index, selection)
  {
    outcomes := [];
    for i := 0 to |selection|
      invariant |outcomes| == i
      invariant forall k :: 0 <= k < i ==> outcomes[k] == Decide(index, selection[k], k, network)
    {
      var fruit := selection[i];
      if fruit !in index {
        outcomes := outcomes + [NotInCatalog(fruit)];
        continue;
      }
      var value := index[fruit];
      if value.Null? || value.NaN? {
        outcomes := outcomes + [MissingKey(fruit)];
        continue;
      }
      var searchOn := Strip(value.text);
      if searchOn == [] {
        outcomes := outcomes + [BlankKey(fruit)];
        continue;
      }
      var url := ApiPrefix + searchOn;
      match network(i, url)
      case Delivered =>
        outcomes := outcomes + [Shown(fruit, url)];
      case Failed =>
        outcomes := outcomes + [LookupFailed(fruit, url)];
    }
    AttemptsCountEligible(index, selection, network, outcomes);
  }
}
