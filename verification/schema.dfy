/** The component registry: the one list of component names, descriptions and
    prop contracts that both the prompt text and the tag whitelist are built from. */
module Schema {

  import opened Wrappers
  import opened Text

  /** One prop of a component: its `type` string, the values it may take when
      the registry restricts them, and an optional description. */
  datatype PropSpec = PropSpec(
    name: string,
    kind: string,
    allowedValues: Option<seq<string>>,
    description: Option<string>)

  datatype ComponentSpec = ComponentSpec(name: string, description: string, props: seq<PropSpec>)

  /** `componentSchema`, entry for entry and prop for prop, in source order. */
  const ComponentSchema: seq<ComponentSpec> := [
    ComponentSpec("Navbar",
      "A top navigation header. Always place this at the very top of the layout.",
      [ PropSpec("title", "string", None, Some("The name of the application displayed on the left.")),
        PropSpec("children", "node", None, Some("Buttons or links to display on the right side.")) ]),
    ComponentSpec("Container",
      "A layout wrapper to stack or align multiple components.",
      [ PropSpec("direction", "string", Some(["row", "column"]), Some("Defaults to column")),
        PropSpec("align", "string", Some(["start", "center", "end"]), None),
        PropSpec("gap", "string", Some(["small", "medium", "large"]), None),
        PropSpec("children", "node", None, None) ]),
    ComponentSpec("Button",
      "A clickable button element. Used for user actions.",
      [ PropSpec("variant", "string", Some(["primary", "secondary", "destructive"]), None),
        PropSpec("children", "string", None, None) ]),
    ComponentSpec("Card",
      "A container for grouping related content.",
      [ PropSpec("title", "string", None, Some("Optional heading")),
        PropSpec("children", "node", None, None) ]),
    ComponentSpec("Input",
      "A text input field for forms.",
      [ PropSpec("type", "string", Some(["text", "email", "password"]), None),
        PropSpec("placeholder", "string", None, None),
        PropSpec("label", "string", None, Some("Text label above the input")) ]),
    ComponentSpec("Sidebar",
      "A vertical navigation panel. Use this inside a Container with direction='row' to make a dashboard layout.",
      [ PropSpec("children", "node", None, Some("Navigation links or buttons.")) ]),
    ComponentSpec("Modal",
      "A popup dialog overlay. Use this for confirmations or settings forms.",
      [ PropSpec("title", "string", None, Some("The header title of the modal.")),
        PropSpec("isOpen", "boolean", None, Some("Defaults to true to show the modal.")),
        PropSpec("children", "node", None, Some("The content inside the modal.")) ]),
    ComponentSpec("Chart",
      "A visual graph component for displaying data.",
      [ PropSpec("title", "string", None, Some("The chart title (e.g., 'Revenue').")),
        PropSpec("type", "string", Some(["bar", "line"]), None),
        PropSpec("data", "array", None, Some("Optional array of numbers (0-100).")) ])
  ]

  /** The names of a registry, in registry order (`componentSchema.map(c => c.name)`). */
  function Names(schema: seq<ComponentSpec>): (names: seq<string>)
    ensures |names| == |schema|
    ensures forall i :: 0 <= i < |schema| ==> names[i] == schema[i].name
  {
    seq(|schema|, i requires 0 <= i < |schema| => schema[i].name)
  }

  function RegistryNames(): seq<string> {
    Names(ComponentSchema)
  }

  /** The prop types a registry entry may declare. */
  predicate IsPropType(kind: string) {
    kind == "string" || kind == "node" || kind == "boolean" || kind == "array"
  }

  /** `schemaPromptText`: the registry passed through `JSON.stringify(…, null, 2)`,
      which the model takes as an opaque serializer. */
  function SchemaPromptText(stringify: seq<ComponentSpec> -> string): string {
    stringify(ComponentSchema)
  }

  /** The registry holds exactly eight components, in this order. */
  lemma RegistryOrder()
    ensures RegistryNames() == ["Navbar", "Container", "Button", "Card", "Input", "Sidebar", "Modal", "Chart"]
  {
  }

  /** No name appears twice in the registry. */
  lemma RegistryNamesDistinct()
    ensures forall i, j :: 0 <= i < j < |RegistryNames()| ==> RegistryNames()[i] != RegistryNames()[j]
  {
    RegistryOrder();
  }

  /** An upper-case letter followed by letters only. */
  predicate IsTagName(n: string) {
    n != [] && IsUpperAscii(n[0]) && forall c :: c in n ==> IsAsciiLetter(c)
  }

  /** Every registry name is an upper-case letter followed by letters only: the
      whitelist scanner's `[A-Z][a-zA-Z0-9]*` reads each name whole. */
  lemma RegistryNamesAreTagNames()
    ensures forall n :: n in RegistryNames() ==> IsTagName(n)
  {
    RegistryOrder();
    assert IsTagName("Navbar");
    assert IsTagName("Container");
    assert IsTagName("Button");
    assert IsTagName("Card");
    assert IsTagName("Input");
    assert IsTagName("Sidebar");
    assert IsTagName("Modal");
    assert IsTagName("Chart");
  }

  /** Every prop of the entry declares one of the four prop types. */
  predicate PropsTyped(c: ComponentSpec) {
    forall j :: 0 <= j < |c.props| ==> IsPropType(c.props[j].kind)
  }

  /** Every prop of every entry declares one of the four prop types. */
  lemma PropTypesKnown()
    ensures forall i :: 0 <= i < |ComponentSchema| ==> PropsTyped(ComponentSchema[i])
  {
    assert PropsTyped(ComponentSchema[0]);
    assert PropsTyped(ComponentSchema[1]);
    assert PropsTyped(ComponentSchema[2]);
    assert PropsTyped(ComponentSchema[3]);
    assert PropsTyped(ComponentSchema[4]);
    assert PropsTyped(ComponentSchema[5]);
    assert PropsTyped(ComponentSchema[6]);
    assert PropsTyped(ComponentSchema[7]);
  }

  /** Button's `variant` allows primary, secondary and destructive. */
  lemma ButtonVariants()
    ensures ComponentSchema[2].name == "Button"
    ensures ComponentSchema[2].props[0].name == "variant"
    ensures ComponentSchema[2].props[0].allowedValues == Some(["primary", "secondary", "destructive"])
  {
  }
}
