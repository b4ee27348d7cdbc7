/**
 * The properties panel's selection state: the record `selected_object`
 * with its `type`, `name` and `properties`, the table of per-type default
 * properties, and the three entry points `select_object`,
 * `set_selected_object` and `get_selected_object`.
 */
module Properties {
  import opened Wrappers

  /** A property value, kept opaque: numbers are their literal text. */
  datatype Value =
    | Text(text: string)
    | Flag(flag: bool)
    | Number(literal: string)
    | Vector(items: seq<string>)

  type Props = map<string, Value>

  const NONE: string := "none"

  /** The defaults table `object_properties`. */
  function ObjectProperties(): (t: map<string, Props>)
    ensures t.Keys == {"mesh", "material", "camera", "light"}
    ensures NONE !in t
  {
    map[
      "mesh" := map[
        "name" := Text("未命名网格"),
        "visible" := Flag(true),
        "position" := Vector(["0.0", "0.0", "0.0"]),
        "rotation" := Vector(["0.0", "0.0", "0.0"]),
        "scale" := Vector(["1.0", "1.0", "1.0"]),
        "material" := Text("default")],
      "material" := map[
        "name" := Text("未命名材质"),
        "albedo_texture" := Text(""),
        "normal_texture" := Text(""),
        "metallic_texture" := Text(""),
        "roughness_texture" := Text(""),
        "metallic_value" := Number("0.0"),
        "roughness_value" := Number("0.5")],
      "camera" := map[
        "name" := Text("未命名摄像机"),
        "position" := Vector(["0.0", "0.0", "5.0"]),
        "rotation" := Vector(["0.0", "0.0", "0.0"]),
        "fov_x" := Number("60.0"),
        "fov_y" := Number("45.0"),
        "near_clip" := Number("0.1"),
        "far_clip" := Number("100.0")],
      "light" := map[
        "name" := Text("未命名HDRI"),
        "hdri_file" := Text(""),
        "intensity" := Number("1.0"),
        "rotation" := Number("0.0")]
    ]
  }

  /** The three fields of `selected_object`. */
  datatype Selection = Selection(objType: string, name: string, properties: Props)

  const NoSelection: Selection := Selection(NONE, "", map[])

  /**
   * The state `select_object(t, n)` leaves behind, whatever it was before:
   * a type of the table is selected with the name and the type's defaults;
   * any other type leaves the empty selection.
   */
  function SelectFor(t: string, n: string): (r: Selection)
    ensures r != NoSelection <==> t in ObjectProperties()
    ensures r != NoSelection ==> r.objType == t && r.name == n && r.properties == ObjectProperties()[t]
  {
    if t in ObjectProperties() then Selection(t, n, ObjectProperties()[t])
    else NoSelection
  }

  /** `properties.update(overrides)` when `overrides` is truthy. */
  function WithOverrides(s: Selection, overrides: Option<Props>): (r: Selection)
    ensures r.objType == s.objType && r.name == s.name
    ensures overrides.None? || overrides.value == map[] ==> r == s
    ensures overrides.Some? ==> r.properties.Keys == s.properties.Keys + overrides.value.Keys
    ensures overrides.Some? ==> forall k :: k in overrides.value ==> r.properties[k] == overrides.value[k]
    ensures forall k :: k in s.properties && (overrides.None? || k !in overrides.value) ==>
      k in r.properties && r.properties[k] == s.properties[k]
  {
    if overrides.None? || overrides.value == map[] then s
    else s.(properties := s.properties + overrides.value)
  }

  /** The selection state: the module-level `selected_object` dictionary. */
  class PropertiesPanel {
    var objType: string
    var name: string
    var properties: Props

    function Current(): Selection
      reads this
    {
      Selection(objType, name, properties)
    }

    /** The state at import: type "none", no name, no properties. */
    constructor ()
      ensures Current() == NoSelection
    {
      objType := NONE;
      name := "";
      properties := map[];
    }

    /** `select_object`: the three fields are overwritten from the type's defaults or reset. */
    method SelectObject(t: string, n: string)
      modifies this
      ensures Current() == SelectFor(t, n)
    {
      if t in ObjectProperties() {
        objType := t;
        name := n;
        properties := ObjectProperties()[t];
      } else {
        objType := NONE;
        name := "";
        properties := map[];
      }
    }

    /** `set_selected_object`: select, then merge the overrides if there are any. */
    method SetSelectedObject(t: string, n: string, overrides: Option<Props>)
      modifies this
      ensures Current() == WithOverrides(SelectFor(t, n), overrides)
    {
      SelectObject(t, n);
      if overrides.Some? && overrides.value != map[] {
        properties := properties + overrides.value;
      }
    }

    /** `get_selected_object`: the current state, unchanged. */
    method GetSelectedObject() returns (r: Selection)
      ensures r == Current()
    {
      r := Selection(objType, name, properties);
    }
  }
}
