/**
  One run of the order form, top to bottom: load the catalog, and when the
  selection is non-empty build the ingredient string, run the nutrition pass
  over the selection and build the insert statement shown as the preview.
 */
module Form {
  import opened Wrappers
  import opened Catalog
  import opened Lookup
  import opened Order

  /** The multiselect accepts at most this many fruits. */
  const MaxSelections: nat := 5

  /**
    Runs the form for the given name, catalog rows and selection. `network`
    stands for the nutrition service: its answer to the request made for each
    position of the selection.
   */
  method RunForm(nameOnOrder: string, rows: seq<FruitRow>, selection: seq<string>,
                 network: (nat, string) -> Reply)
    returns (options: seq<string>, outcomes: seq<Outcome>, preview: Option<string>)
    requires |selection| <= MaxSelections
    ensures options == LoadCatalog(rows).options
    ensures |outcomes| == |selection|
    ensures forall k :: 0 <= k < |selection| ==>
      outcomes[k] == Decide(LoadCatalog(rows).index, selection[k], k, network)
    ensures Attempts(outcomes) == CountEligible(LoadCatalog(rows).index, selection)
    ensures selection == [] <==> preview.None?
    ensures preview.Some? ==> preview.value == InsertStatement(JoinNames(selection), nameOnOrder)
  {
    var catalog := LoadCatalog(rows);
    options := catalog.options;
    if selection == [] {
      outcomes, preview := [], None;
      return;
    }
    var ingredients := JoinNames(selection);
    outcomes := LookupPass(catalog.index, selection, network);
    preview := Some(InsertStatement(ingredients, nameOnOrder));
  }

  /**
    Apple has key "apple", Banana an empty key: Apple is looked up at the
    service, Banana is skipped with no request.
   */
  lemma AppleBananaLookups(network: (nat, string) -> Reply)
    ensures var index := map["Apple" := Str("apple"), "Banana" := Str("")];
      && Decide(index, "Apple", 0, network).Attempted()
      && Decide(index, "Apple", 0, network).url == ApiPrefix + "apple"
      && Decide(index, "Banana", 1, network) == BlankKey("Banana")
  {
    StripUnique("apple", 0, 5);
  }
}
