/**
 * The light records the demo window edits, and the icon shown for a light type.
 */
module Lights {

  /**
   * The host's light type enumeration.  The five members the window treats
   * specially are named (the host numbers them 0 to 4); OtherType stands for
   * every other value an enum of that type can hold (further members of the
   * host enumeration, or any other integer cast to it).
   */
  datatype LightType = Spot | Directional | Point | Area | Disc | OtherType(code: OtherCode)

  /** The integer values of the enumeration that are none of the five named members. */
  type OtherCode = c: int | c < 0 || c > 4 witness -1

  /** The host's light shape enumeration. */
  datatype LightShape = Cone | Pyramid | Box

  const DirectionalIcon: string := "DirectionalLight Icon"
  const SpotIcon: string := "SpotLight Icon"
  const AreaIcon: string := "AreaLight Icon"
  const DiscIcon: string := "DiscLight Icon"
  const DefaultIcon: string := "d_Light Icon"

  /** The name of the icon drawn beside a light's type (a switch with a default). */
  function LightIcon(t: LightType): (icon: string)
    ensures icon == DirectionalIcon <==> t == Directional
    ensures icon == SpotIcon <==> t == Spot
    ensures icon == AreaIcon <==> t == Area
    ensures icon == DiscIcon <==> t == Disc
    ensures icon == DefaultIcon <==> !(t == Directional || t == Spot || t == Area || t == Disc)
  {
    match t
    case Directional => DirectionalIcon
    case Spot => SpotIcon
    case Area => AreaIcon
    case Disc => DiscIcon
    case _ => DefaultIcon
  }

  /** The icon lookup is total and its five results are pairwise distinct. */
  lemma LightIconRange(t: LightType)
    ensures LightIcon(t) in {DirectionalIcon, SpotIcon, AreaIcon, DiscIcon, DefaultIcon}
    ensures |{DirectionalIcon, SpotIcon, AreaIcon, DiscIcon, DefaultIcon}| == 5
  {
  }

  /**
   * One row of the table.  Its fields are edited in place by the table's
   * cells, so it is an object; deletion compares rows by reference.
   */
  class LightItem {
    var enabled: bool
    var name: string
    var lightType: LightType
    var shape: LightShape

    constructor (enabled: bool, name: string, lightType: LightType, shape: LightShape)
      ensures this.enabled == enabled && this.name == name
      ensures this.lightType == lightType && this.shape == shape
    {
      this.enabled := enabled;
      this.name := name;
      this.lightType := lightType;
      this.shape := shape;
    }
  }

  /** The names the rows currently hold, in row order. */
  function NamesOf(items: seq<LightItem>): (names: seq<string>)
    reads items
    ensures |names| == |items|
    ensures forall i :: 0 <= i < |items| ==> names[i] == items[i].name
  {
    seq(|items|, i reads items requires 0 <= i < |items| => items[i].name)
  }

  /** Cutting out one row cuts out its name and keeps every other name in place. */
  lemma NamesOfRemoveAt(items: seq<LightItem>, p: nat)
    requires p < |items|
    ensures NamesOf(items[..p] + items[p + 1..]) == NamesOf(items)[..p] + NamesOf(items)[p + 1..]
  {
  }
}
