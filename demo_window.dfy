/**
 * The demo window's own collection logic: the array of light rows it owns,
 * the "Create New" button that appends a row with a fresh unique name, and
 * the per-row "Delete" button that filters the clicked row out.
 *
 * The window replaces its array wholesale on every change, so the field is a
 * sequence that the methods reassign.  Values the host supplies (what a
 * widget returned this frame, a random draw) are method parameters.
 */
module Demo {
  import opened Naming
  import opened Removal
  import opened Lights

  class DemoWindow {
    /** The rows, in display order. */
    var lightItems: seq<LightItem>
    /** The type the next created light gets. */
    var newLightType: LightType

    /**
     * No row object is listed twice: every created row is a fresh object and
     * deletion only drops rows.
     */
    ghost predicate Valid()
      reads this
    {
      Distinct(lightItems)
    }

    /** The names the rows hold right now. */
    function Names(): (names: seq<string>)
      reads this, lightItems
      ensures |names| == |lightItems|
    {
      NamesOf(lightItems)
    }

    constructor ()
      ensures Valid()
      ensures lightItems == [] && newLightType == Directional
    {
      lightItems := [];
      newLightType := Directional;
    }

    /**
     * Tries "Light 1", "Light 2", ... and returns the first name no row
     * holds.  Reads the rows and changes nothing.
     */
    method GetUniqueLightName() returns (lightName: string)
      ensures lightName !in Names()
      ensures exists k :: IsLowestFree(Names(), k) && lightName == Candidate(k)
      ensures lightName == UniqueLightName(Names())
    {
      var names := Names();
      var index := 1;
      lightName := Candidate(index);
      while lightName in names
        invariant 1 <= index <= |names| + 1
        invariant lightName == Candidate(index)
        invariant AllTakenBelow(names, index)
        decreases |names| + 1 - index
      {
        index := index + 1;
        lightName := Candidate(index);
        PigeonholeBound(names, index);
      }
      LowestFreeUnique(names, index);
    }

    /**
     * The "Create New" button: appends one enabled row named by
     * GetUniqueLightName, of the currently selected type and the given
     * (randomly drawn) shape, then selects the (randomly drawn) next type.
     */
    method CreateNew(randomShape: LightShape, randomNextType: LightType)
      requires Valid()
      modifies this
      ensures Valid()
      ensures |lightItems| == |old(lightItems)| + 1
      ensures lightItems[..|old(lightItems)|] == old(lightItems)
      ensures fresh(lightItems[|old(lightItems)|])
      ensures lightItems[|old(lightItems)|].enabled
      ensures lightItems[|old(lightItems)|].name == UniqueLightName(old(Names()))
      ensures lightItems[|old(lightItems)|].name !in old(Names())
      ensures lightItems[|old(lightItems)|].lightType == old(newLightType)
      ensures lightItems[|old(lightItems)|].shape == randomShape
      ensures Names() == old(Names()) + [UniqueLightName(old(Names()))]
      ensures newLightType == randomNextType
    {
      var lightName := GetUniqueLightName();
      var item := new LightItem(true, lightName, newLightType, randomShape);
      lightItems := lightItems + [item];
      newLightType := randomNextType;
    }

    /**
     * The title bar: the type pop-up's value becomes the selected type, and a
     * click on "Create New" creates a light of that type.
     */
    method TitleGUI(popupType: LightType, createClicked: bool,
                    randomShape: LightShape, randomNextType: LightType)
      requires Valid()
      modifies this
      ensures Valid()
      ensures !createClicked ==> lightItems == old(lightItems) && newLightType == popupType
      ensures createClicked ==>
        && |lightItems| == |old(lightItems)| + 1
        && lightItems[..|old(lightItems)|] == old(lightItems)
        && fresh(lightItems[|old(lightItems)|])
        && lightItems[|old(lightItems)|].enabled
        && lightItems[|old(lightItems)|].name == UniqueLightName(old(Names()))
        && lightItems[|old(lightItems)|].name !in old(Names())
        && lightItems[|old(lightItems)|].lightType == popupType
        && lightItems[|old(lightItems)|].shape == randomShape
        && Names() == old(Names()) + [UniqueLightName(old(Names()))]
        && newLightType == randomNextType
    {
      newLightType := popupType;
      if createClicked {
        CreateNew(randomShape, randomNextType);
      }
    }

    /**
     * The "Delete" button of a row: keeps every row that is not the clicked
     * object, in order.  Row objects themselves are untouched.
     */
    method Delete(item: LightItem)
      requires Valid()
      modifies this`lightItems
      ensures Valid()
      ensures lightItems == Without(old(lightItems), item)
      ensures item !in lightItems
      ensures |lightItems| == if item in old(lightItems) then |old(lightItems)| - 1 else |old(lightItems)|
      ensures item !in old(lightItems) ==> lightItems == old(lightItems)
      ensures forall p :: 0 <= p < |old(lightItems)| && old(lightItems)[p] == item ==>
        && lightItems == old(lightItems)[..p] + old(lightItems)[p + 1..]
        && Names() == old(Names())[..p] + old(Names())[p + 1..]
    {
      ghost var before := lightItems;
      lightItems := Without(lightItems, item);
      WithoutDistinct(before, item);
      WithoutDistinctLength(before, item);
      if item !in before {
        WithoutAbsent(before, item);
      }
      forall p | 0 <= p < |before| && before[p] == item
        ensures lightItems == before[..p] + before[p + 1..]
        ensures Names() == NamesOf(before)[..p] + NamesOf(before)[p + 1..]
      {
        WithoutAtUniquePosition(before, p, item);
        NamesOfRemoveAt(before, p);
      }
    }
  }

  /**
   * A session of clicks on a new window: "Create New" three times, "Delete"
   * on the second row, "Create New" again.  The last light takes the freed
   * name "Light 2" rather than "Light 4".
   */
  method DeleteThenCreate(shape: LightShape, nextType: LightType)
    returns (created: seq<string>, refilled: string)
    ensures created == ["Light 1", "Light 2", "Light 3"]
    ensures refilled == "Light 2"
  {
    var w := new DemoWindow();
    assert w.Names() == Creations(0);
    CreationsStep(w.Names(), 0);
    w.CreateNew(shape, nextType);
    CreationsStep(w.Names(), 1);
    w.CreateNew(shape, nextType);
    CreationsStep(w.Names(), 2);
    w.CreateNew(shape, nextType);
    CreationsAreConsecutive(3);
    created := w.Names();
    SmallCandidates();
    assert created == [Candidate(1), Candidate(2), Candidate(3)];
    ghost var rest := created[..1] + created[2..];
    w.Delete(w.lightItems[1]);
    assert w.Names() == rest;
    ConsecutiveRefill(3, 2);
    w.CreateNew(shape, nextType);
    refilled := w.lightItems[2].name;
  }
}
