/**
 * The cascading filter wizard of `app.ts`: a catalog of fruits, each under
 * a key, narrowed by one type, then one time, then any number of features;
 * the keys that match every choice are offered as tags, and the tags the
 * user picks are reported by the final NEXT.
 *
 * The catalog is a sequence of entries in the object's key order, standing
 * for `Object.keys` / `Object.values`. The option lists and the tag list
 * are functions of it; the page's module-level variables, the contents of
 * the four button containers, the trigger's visibility and its bound
 * listeners are the fields of `Page`.
 */
module FilterWizard {
  import opened Seqs

  /** One fruit record; `kind` is the record's `type` field. */
  datatype Fruit = Fruit(kind: string, time: seq<string>, feature: seq<string>)

  datatype Entry = Entry(key: string, fruit: Fruit)

  type Catalog = seq<Entry>

  /** The keys of the catalog, in order. */
  function Keys(c: Catalog): (r: seq<string>)
    ensures |r| == |c|
    ensures forall i :: 0 <= i < |c| ==> r[i] == c[i].key
  {
    if c == [] then [] else Keys(c[..|c| - 1]) + [c[|c| - 1].key]
  }

  /** Object keys are distinct. */
  predicate WellKeyed(c: Catalog) {
    NoDup(Keys(c))
  }

  function Kinds(c: Catalog): seq<string> {
    Map(c, (e: Entry) => e.fruit.kind)
  }

  /**
   * `createButtons`: the options that get a button in the container, in
   * the order given, leaving out those listed as incompatible.
   */
  function Displayed(options: seq<string>, incompatible: seq<string>): (r: seq<string>)
    ensures forall x :: x in r <==> x in options && x !in incompatible
    ensures NoDup(options) ==> NoDup(r)
  {
    assert NoDup(options) ==> NoDup(Filter(options, x => x !in incompatible)) by {
      if NoDup(options) {
        FilterNoDup(options, x => x !in incompatible);
      }
    }
    Filter(options, x => x !in incompatible)
  }

  /** With nothing incompatible, every option is displayed, in order. */
  lemma DisplayedAll(options: seq<string>)
    ensures Displayed(options, []) == options
  {
    FilterKeepsAll(options, x => x !in []);
  }

  /** `initializeTypeButtons`: every distinct type, in the order of first appearance. */
  function TypeOptions(c: Catalog): (r: seq<string>)
    ensures NoDup(r)
    ensures forall t :: t in r <==> exists e :: e in c && e.fruit.kind == t
  {
    var kinds := Kinds(c);
    assert forall t :: t in kinds <==> exists e :: e in c && e.fruit.kind == t by {
      forall t | t in kinds
        ensures exists e :: e in c && e.fruit.kind == t
      {
        var i :| 0 <= i < |kinds| && kinds[i] == t;
        assert c[i] in c;
      }
    }
    Dedup(kinds)
  }

  /** The type options come in the order in which each type first appears in the catalog. */
  lemma TypeOptionsFirstSeen(c: Catalog)
    ensures forall i, j :: 0 <= i < j < |TypeOptions(c)| ==>
      IndexOf(Kinds(c), TypeOptions(c)[i]) < IndexOf(Kinds(c), TypeOptions(c)[j])
  {
    DedupFirstSeen(Kinds(c));
  }

  /** The fruit's times and features, as functions `flatMap` can take. */
  function TimesOf(e: Entry): seq<string> { e.fruit.time }
  function FeaturesOf(e: Entry): seq<string> { e.fruit.feature }

  /** The filters of `selectType` and `selectTime`. */
  function OfType(t: string): Entry -> bool { (e: Entry) => e.fruit.kind == t }
  function AtTime(s: string): Entry -> bool { (e: Entry) => s in e.fruit.time }

  /** The times of the fruits of type `t`, in catalog order, repeats included. */
  function TypeTimes(c: Catalog, t: string): seq<string> {
    FlatMap(Filter(c, OfType(t)), TimesOf)
  }

  /** The features of the fruits available at time `s`, in catalog order, repeats included. */
  function TimeFeatures(c: Catalog, s: string): seq<string> {
    FlatMap(Filter(c, AtTime(s)), FeaturesOf)
  }

  /** The features of every fruit, in catalog order, repeats included. */
  function CatalogFeatures(c: Catalog): seq<string> {
    FlatMap(c, FeaturesOf)
  }

  /** A single-entry catalog filters to the entry or to nothing, and flat-maps to its piece. */
  lemma SingleEntry(e: Entry, p: Entry -> bool, g: Entry -> seq<string>)
    ensures Filter([e], p) == if p(e) then [e] else []
    ensures FlatMap([e], g) == g(e)
  {
    assert [e][..0] == [];
  }

  /** An entry added after the others contributes its times after theirs, when it has type `t`. */
  lemma TypeTimesAppend(c: Catalog, e: Entry, t: string)
    ensures TypeTimes(c + [e], t) == TypeTimes(c, t) + (if e.fruit.kind == t then e.fruit.time else [])
  {
    FilterAppend(c, [e], OfType(t));
    FlatMapAppend(Filter(c, OfType(t)), Filter([e], OfType(t)), TimesOf);
    SingleEntry(e, OfType(t), TimesOf);
    assert FlatMap([], TimesOf) == [];
  }

  /** An entry added after the others contributes its features after theirs, when it is available at `s`. */
  lemma TimeFeaturesAppend(c: Catalog, e: Entry, s: string)
    ensures TimeFeatures(c + [e], s) == TimeFeatures(c, s) + (if s in e.fruit.time then e.fruit.feature else [])
  {
    FilterAppend(c, [e], AtTime(s));
    FlatMapAppend(Filter(c, AtTime(s)), Filter([e], AtTime(s)), FeaturesOf);
    SingleEntry(e, AtTime(s), FeaturesOf);
    assert FlatMap([], FeaturesOf) == [];
  }

  /** An entry added after the others contributes its features after theirs. */
  lemma CatalogFeaturesAppend(c: Catalog, e: Entry)
    ensures CatalogFeatures(c + [e]) == CatalogFeatures(c) + e.fruit.feature
  {
    FlatMapAppend(c, [e], FeaturesOf);
    assert FlatMap([e], FeaturesOf) == e.fruit.feature;
  }

  /** `selectType`'s options: every distinct time of the fruits of type `t`. */
  function TimeOptions(c: Catalog, t: string): (r: seq<string>)
    ensures NoDup(r)
    ensures forall s :: s in r <==> exists e :: e in c && e.fruit.kind == t && s in e.fruit.time
  {
    Dedup(TypeTimes(c, t))
  }

  /** The time options come in the order in which each time first appears among the fruits of type `t`. */
  lemma TimeOptionsFirstSeen(c: Catalog, t: string)
    ensures forall i, j :: 0 <= i < j < |TimeOptions(c, t)| ==>
      IndexOf(TypeTimes(c, t), TimeOptions(c, t)[i]) < IndexOf(TypeTimes(c, t), TimeOptions(c, t)[j])
  {
    DedupFirstSeen(TypeTimes(c, t));
  }

  /**
   * `selectTime`'s options: every distinct feature of the fruits available
   * at time `s`, whatever type was chosen.
   */
  function FeatureOptions(c: Catalog, s: string): (r: seq<string>)
    ensures NoDup(r)
    ensures forall f :: f in r <==> exists e :: e in c && s in e.fruit.time && f in e.fruit.feature
  {
    Dedup(TimeFeatures(c, s))
  }

  /** The feature options come in the order in which each feature first appears among the fruits available at `s`. */
  lemma FeatureOptionsFirstSeen(c: Catalog, s: string)
    ensures forall i, j :: 0 <= i < j < |FeatureOptions(c, s)| ==>
      IndexOf(TimeFeatures(c, s), FeatureOptions(c, s)[i]) < IndexOf(TimeFeatures(c, s), FeatureOptions(c, s)[j])
  {
    DedupFirstSeen(TimeFeatures(c, s));
  }

  /** Every distinct feature in the catalog. */
  function AllFeatures(c: Catalog): (r: seq<string>)
    ensures NoDup(r)
    ensures forall f :: f in r <==> exists e :: e in c && f in e.fruit.feature
  {
    Dedup(CatalogFeatures(c))
  }

  /** All features come in the order in which each first appears in the catalog. */
  lemma AllFeaturesFirstSeen(c: Catalog)
    ensures forall i, j :: 0 <= i < j < |AllFeatures(c)| ==>
      IndexOf(CatalogFeatures(c), AllFeatures(c)[i]) < IndexOf(CatalogFeatures(c), AllFeatures(c)[j])
  {
    DedupFirstSeen(CatalogFeatures(c));
  }

  /** The features offered at any time are among all the catalog's features. */
  lemma FeatureOptionsAmongAll(c: Catalog, s: string)
    ensures forall f :: f in FeatureOptions(c, s) ==> f in AllFeatures(c)
  {
    forall f | f in FeatureOptions(c, s)
      ensures f in AllFeatures(c)
    {
      var e :| e in c && s in e.fruit.time && f in e.fruit.feature;
    }
  }

  /** `updateFeatureButtons`' incompatible list: nothing when no feature is selected, else every unselected feature. */
  function Incompatible(all: seq<string>, selected: set<string>): (r: seq<string>)
    ensures selected == {} ==> r == []
    ensures selected != {} ==> forall f :: f in r <==> f in all && f !in selected
  {
    if |selected| > 0 then Filter(all, f => f !in selected) else []
  }

  /** The feature buttons `updateFeatureButtons` displays for the selected set. */
  function FeatureButtons(c: Catalog, selected: set<string>): (r: seq<string>)
    ensures NoDup(r)
    ensures forall f :: f in r <==> f in AllFeatures(c) && (selected == {} || f in selected)
  {
    var all := AllFeatures(c);
    Displayed(all, Incompatible(all, selected))
  }

  /**
   * After a feature click the container shows every catalog feature when
   * none is selected, and otherwise exactly the selected ones, in the
   * catalog's first-appearance order.
   */
  lemma FeatureButtonsShown(c: Catalog, selected: set<string>)
    ensures selected == {} ==> FeatureButtons(c, selected) == AllFeatures(c)
    ensures selected != {} ==> FeatureButtons(c, selected) == Filter(AllFeatures(c), f => f in selected)
  {
    var all := AllFeatures(c);
    var bad := Incompatible(all, selected);
    if selected == {} {
      DisplayedAll(all);
    } else {
      FilterAgree(all, x => x !in bad, f => f in selected);
    }
  }

  /**
   * `displayTags`' condition on one fruit: its type is the selected one, a
   * time is selected and the fruit is available then, and it has every
   * selected feature.
   */
  predicate Matches(f: Fruit, selectedType: Option<string>, selectedTime: Option<string>, features: set<string>)
    ensures selectedTime.None? || selectedType != Some(f.kind) ==> !Matches(f, selectedType, selectedTime, features)
    ensures features == {} ==>
      (Matches(f, selectedType, selectedTime, features) <==>
       selectedType == Some(f.kind) && selectedTime.Some? && selectedTime.value in f.time)
  {
    && selectedType == Some(f.kind)
    && selectedTime.Some? && selectedTime.value in f.time
    && forall x :: x in features ==> x in f.feature
  }

  /** `displayTags`: the keys, in key order, whose fruit matches every choice. */
  function Tags(c: Catalog, selectedType: Option<string>, selectedTime: Option<string>, features: set<string>): (r: seq<string>)
    ensures forall k :: k in r <==> exists e :: e in c && e.key == k && Matches(e.fruit, selectedType, selectedTime, features)
    ensures selectedTime.None? ==> r == []
  {
    if c == [] then []
    else
      var p, e := c[..|c| - 1], c[|c| - 1];
      assert c == p + [e];
      Tags(p, selectedType, selectedTime, features) + (if Matches(e.fruit, selectedType, selectedTime, features) then [e.key] else [])
  }

  /** Distinct keys give distinct tags. */
  lemma {:induction false} TagsDistinct(c: Catalog, selectedType: Option<string>, selectedTime: Option<string>, features: set<string>)
    requires WellKeyed(c)
    ensures NoDup(Tags(c, selectedType, selectedTime, features))
  {
    if c != [] {
      var p, e := c[..|c| - 1], c[|c| - 1];
      var ks := Keys(c);
      assert Keys(p) == ks[..|p|];
      TagsDistinct(p, selectedType, selectedTime, features);
      var r := Tags(p, selectedType, selectedTime, features);
      if Matches(e.fruit, selectedType, selectedTime, features) {
        forall k | k in r
          ensures k != e.key
        {
          var d :| d in p && d.key == k && Matches(d.fruit, selectedType, selectedTime, features);
          var i :| 0 <= i < |p| && p[i] == d;
          assert ks[i] == k && ks[|p|] == e.key;
        }
        NoDupAppend(r, e.key);
      }
    }
  }

  /** Every tag is a key, and the tags come in key order. */
  lemma {:induction false} TagsInKeyOrder(c: Catalog, selectedType: Option<string>, selectedTime: Option<string>, features: set<string>)
    requires WellKeyed(c)
    ensures OrderedBy(Tags(c, selectedType, selectedTime, features), Keys(c))
  {
    if c != [] {
      var p, e := c[..|c| - 1], c[|c| - 1];
      var ks, kp := Keys(c), Keys(p);
      assert kp == ks[..|p|];
      assert ks == kp + [e.key];
      TagsInKeyOrder(p, selectedType, selectedTime, features);
      var r := Tags(p, selectedType, selectedTime, features);
      if Matches(e.fruit, selectedType, selectedTime, features) {
        assert e.key !in kp;
        OrderedByAppend(r, kp, e.key);
      } else {
        OrderedByExtend(r, kp, e.key);
      }
    }
  }

  /** `onFinalNext`'s message: every picked tag, in picking order, joined by ", ". */
  function FinalMessage(selections: seq<string>): (r: string)
    ensures |r| >= 10 && r[..10] == "Selected: "
    ensures selections == [] ==> r == "Selected: "
    ensures |selections| == 1 ==> r == "Selected: " + selections[0]
  {
    "Selected: " + Join(selections, ", ")
  }

  /** Picking x, then y, then x again leaves y first: a re-picked tag goes to the end. */
  lemma RepickGoesLast()
    ensures ToggleIn(ToggleIn(ToggleIn(ToggleIn([], "x"), "y"), "x"), "x") == ["y", "x"]
    ensures FinalMessage(["y", "x"]) == "Selected: y, x"
  {
    var s := ToggleIn(ToggleIn([], "x"), "y");
    assert s == ["x", "y"];
    assert ToggleIn(s, "x") == ["y"];
  }

  /** The listeners that can be bound to the trigger, each at most once. */
  datatype Handler = FeatureNext | FinalNext

  /** The page's state as a value: the fields of `Page` other than the catalog. */
  datatype PageState = PageState(
    selectedType: Option<string>,
    selectedTime: Option<string>,
    selectedFeatures: set<string>,
    selections: seq<string>,
    typeButtons: seq<string>,
    timeButtons: seq<string>,
    featureButtons: seq<string>,
    tagButtons: seq<string>,
    triggerVisible: bool,
    handlers: set<Handler>)

  /**
   * The page's invariant over catalog `c`: the type buttons are the type
   * options; the time buttons are the chosen type's times; a time is
   * chosen only after a type, and features and tags appear only after a
   * time; every feature button and selected feature is a catalog feature;
   * every tag button and picked tag is a catalog key, shown and picked at
   * most once; while tags are picked the final listener is bound; a
   * visible trigger has a listener.
   */
  ghost predicate Inv(c: Catalog, s: PageState) {
    && WellKeyed(c)
    && s.typeButtons == TypeOptions(c)
    && (s.selectedType.None? ==> s.timeButtons == [] && s.selectedTime.None?)
    && (s.selectedType.Some? ==> s.selectedType.value in s.typeButtons && s.timeButtons == TimeOptions(c, s.selectedType.value))
    && (s.selectedTime.None? ==> s.featureButtons == [] && s.selectedFeatures == {} && s.tagButtons == [])
    && (forall f :: f in s.featureButtons ==> f in AllFeatures(c))
    && (forall f :: f in s.selectedFeatures ==> f in AllFeatures(c))
    && NoDup(s.tagButtons) && (forall k :: k in s.tagButtons ==> k in Keys(c))
    && NoDup(s.selections) && (forall k :: k in s.selections ==> k in Keys(c))
    && (s.selections != [] ==> FinalNext in s.handlers)
    && (s.triggerVisible ==> s.handlers != {})
  }

  /** Choosing a displayed type and showing its times keeps the invariant. */
  lemma SelectTypeKeepsInv(c: Catalog, s: PageState, t: string)
    requires Inv(c, s) && t in s.typeButtons
    ensures Inv(c, s.(selectedType := Some(t), timeButtons := TimeOptions(c, t)))
  {
  }

  /** Choosing a displayed time and showing the features available then keeps the invariant. */
  lemma SelectTimeKeepsInv(c: Catalog, s: PageState, x: string)
    requires Inv(c, s) && x in s.timeButtons
    ensures Inv(c, s.(selectedTime := Some(x), featureButtons := FeatureOptions(c, x)))
  {
    FeatureOptionsAmongAll(c, x);
  }

  /** Flipping a displayed feature, redrawing the feature buttons and updating the trigger keeps the invariant. */
  lemma SelectFeatureKeepsInv(c: Catalog, s: PageState, f: string)
    requires Inv(c, s) && f in s.featureButtons
    ensures var fs := ToggleSet(s.selectedFeatures, f);
      Inv(c, s.(selectedFeatures := fs, featureButtons := FeatureButtons(c, fs),
                triggerVisible := fs != {},
                handlers := if fs != {} then s.handlers + {FeatureNext} else s.handlers))
  {
  }

  /** Showing the matching keys as tags keeps the invariant. */
  lemma DisplayTagsKeepsInv(c: Catalog, s: PageState)
    requires Inv(c, s)
    ensures Inv(c, s.(tagButtons := Tags(c, s.selectedType, s.selectedTime, s.selectedFeatures)))
  {
    TagsDistinct(c, s.selectedType, s.selectedTime, s.selectedFeatures);
    TagsInKeyOrder(c, s.selectedType, s.selectedTime, s.selectedFeatures);
  }

  /** Flipping a displayed tag in the picked list and updating the trigger keeps the invariant. */
  lemma SelectTagKeepsInv(c: Catalog, s: PageState, tag: string)
    requires Inv(c, s) && tag in s.tagButtons
    ensures var sel := ToggleIn(s.selections, tag);
      Inv(c, s.(selections := sel, triggerVisible := sel != [],
                handlers := if sel != [] then s.handlers - {FeatureNext} + {FinalNext} else s.handlers))
  {
  }

  class Page {
    /** `fruits`, once loaded. */
    const catalog: Catalog
    var selectedType: Option<string>
    var selectedTime: Option<string>
    var selectedFeatures: set<string>
    /** The picked tags, in picking order. */
    var selections: seq<string>
    /** The labels of the buttons in each container, in display order. */
    var typeButtons: seq<string>
    var timeButtons: seq<string>
    var featureButtons: seq<string>
    var tagButtons: seq<string>
    /** Whether the trigger is displayed. */
    var triggerVisible: bool
    /** The click listeners bound to the trigger. */
    var handlers: set<Handler>

    ghost function State(): PageState
      reads this
    {
      PageState(selectedType, selectedTime, selectedFeatures, selections,
        typeButtons, timeButtons, featureButtons, tagButtons, triggerVisible, handlers)
    }

    ghost predicate Valid()
      reads this
    {
      Inv(catalog, State())
    }

    /** Loading the catalog: the type buttons are shown; every other container is empty and the trigger hidden and unbound. */
    constructor (c: Catalog)
      requires WellKeyed(c)
      ensures Valid() && catalog == c
      ensures State() == PageState(None, None, {}, [], TypeOptions(c), [], [], [], false, {})
    {
      catalog := c;
      DisplayedAll(TypeOptions(c));
      typeButtons := Displayed(TypeOptions(c), []);
      timeButtons, featureButtons, tagButtons := [], [], [];
      selectedType, selectedTime, selectedFeatures, selections := None, None, {}, [];
      triggerVisible, handlers := false, {};
    }

    /** `selectType`: records the type and shows its times; later choices are kept as they are. */
    method SelectType(t: string)
      requires Valid() && t in typeButtons
      modifies this
      ensures Valid()
      ensures State() == old(State()).(selectedType := Some(t), timeButtons := TimeOptions(catalog, t))
    {
      ghost var s := State();
      SelectTypeKeepsInv(catalog, s, t);
      var times := TimeOptions(catalog, t);
      DisplayedAll(times);
      selectedType := Some(t);
      timeButtons := Displayed(times, []);
      assert State() == s.(selectedType := Some(t), timeButtons := times);
    }

    /** `selectTime`: records the time and shows the features available then, whatever the type. */
    method SelectTime(x: string)
      requires Valid() && x in timeButtons
      modifies this
      ensures Valid()
      ensures State() == old(State()).(selectedTime := Some(x), featureButtons := FeatureOptions(catalog, x))
    {
      ghost var s := State();
      SelectTimeKeepsInv(catalog, s, x);
      var features := FeatureOptions(catalog, x);
      DisplayedAll(features);
      selectedTime := Some(x);
      featureButtons := Displayed(features, []);
      assert State() == s.(selectedTime := Some(x), featureButtons := features);
    }

    /**
     * `selectFeature`: flips the feature's membership, redraws the feature
     * buttons, and shows the trigger with the tag listener bound exactly
     * when some feature is selected.
     */
    method SelectFeature(f: string)
      requires Valid() && f in featureButtons
      modifies this
      ensures Valid()
      ensures selectedFeatures == ToggleSet(old(selectedFeatures), f)
      ensures State() == old(State()).(selectedFeatures := selectedFeatures,
        featureButtons := FeatureButtons(catalog, selectedFeatures),
        triggerVisible := selectedFeatures != {},
        handlers := if selectedFeatures != {} then old(handlers) + {FeatureNext} else old(handlers))
    {
      ghost var s := State();
      SelectFeatureKeepsInv(catalog, s, f);
      selectedFeatures := ToggleSet(selectedFeatures, f);
      UpdateFeatureButtons();
      UpdateNextButtonVisibility();
    }

    /** `updateFeatureButtons`: redraws all catalog features, leaving out the unselected ones while any is selected. */
    method UpdateFeatureButtons()
      modifies this
      ensures State() == old(State()).(featureButtons := FeatureButtons(catalog, selectedFeatures))
    {
      var all := AllFeatures(catalog);
      var incompatible := Incompatible(all, selectedFeatures);
      featureButtons := Displayed(all, incompatible);
    }

    /** `updateNextButtonVisibility`: with a feature selected, show the trigger and bind the tag listener (at most once); otherwise hide it. */
    method UpdateNextButtonVisibility()
      modifies this
      ensures State() == old(State()).(triggerVisible := selectedFeatures != {},
        handlers := if selectedFeatures != {} then old(handlers) + {FeatureNext} else old(handlers))
    {
      if |selectedFeatures| > 0 {
        triggerVisible := true;
        handlers := handlers + {FeatureNext};
      } else {
        triggerVisible := false;
      }
    }

    /** `displayTags`: shows, in key order, the keys whose fruit matches every choice. */
    method DisplayTags()
      requires Valid()
      modifies this
      ensures Valid()
      ensures State() == old(State()).(tagButtons := Tags(catalog, selectedType, selectedTime, selectedFeatures))
    {
      DisplayTagsKeepsInv(catalog, State());
      tagButtons := Tags(catalog, selectedType, selectedTime, selectedFeatures);
    }

    /**
     * `selectTag`: drops a picked tag, or appends an unpicked one at the end;
     * while any tag is picked the trigger is shown with the tag listener
     * swapped for the final one, otherwise it is hidden.
     */
    method SelectTag(tag: string)
      requires Valid() && tag in tagButtons
      modifies this
      ensures Valid()
      ensures selections == ToggleIn(old(selections), tag)
      ensures State() == old(State()).(selections := selections,
        triggerVisible := selections != [],
        handlers := if selections != [] then old(handlers) - {FeatureNext} + {FinalNext} else old(handlers))
    {
      SelectTagKeepsInv(catalog, State(), tag);
      selections := ToggleIn(selections, tag);
      UpdateFinalNextButtonVisibility();
    }

    /** `updateFinalNextButtonVisibility`: with a tag picked, show the trigger and swap the tag listener for the final one; otherwise hide it. */
    method UpdateFinalNextButtonVisibility()
      modifies this
      ensures State() == old(State()).(triggerVisible := selections != [],
        handlers := if selections != [] then old(handlers) - {FeatureNext} + {FinalNext} else old(handlers))
    {
      if |selections| > 0 {
        triggerVisible := true;
        handlers := handlers - {FeatureNext} + {FinalNext};
      } else {
        triggerVisible := false;
      }
    }

    /**
     * A click on the trigger runs every bound listener: the tag listener
     * redraws the tags, the final one reports the picked tags. Neither
     * reads what the other writes, so the order they were bound in does
     * not matter.
     */
    method ClickNext() returns (alerts: seq<string>)
      requires Valid()
      modifies this
      ensures Valid()
      ensures alerts == if FinalNext in handlers then [FinalMessage(selections)] else []
      ensures State() == if FeatureNext in handlers
        then old(State()).(tagButtons := Tags(catalog, selectedType, selectedTime, selectedFeatures))
        else old(State())
    {
      if FeatureNext in handlers {
        DisplayTags();
      }
      alerts := if FinalNext in handlers then [FinalMessage(selections)] else [];
    }
  }

  /**
   * After a click on catalog feature `f` the feature stays displayed,
   * so it can be clicked again, exactly when the click selected it or
   * deselected the last selected feature; deselecting it while others stay
   * selected hides it.
   */
  lemma ClickedFeatureShown(c: Catalog, selected: set<string>, f: string)
    requires f in AllFeatures(c)
    ensures f in FeatureButtons(c, ToggleSet(selected, f)) <==> f !in selected || selected == {f}
  {
    if f in selected && selected != {f} {
      var g :| g in selected && g != f;
      assert g in ToggleSet(selected, f);
    }
  }
}
