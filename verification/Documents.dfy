/** Configuration documents: nested dictionaries with scalar leaves and explicit nulls. */
module Documents {
  import opened Basics

  /** A dotted path, kept as the list of its keys. */
  type Path = seq<string>

  datatype Val = Null | Scalar(text: string) | Dict(fields: map<string, Val>)

  /** What a reader finds at a path, absent read as null. */
  datatype Kind = Nothing | Leaf(text: string) | Section

  function KindOf(v: Val): Kind {
    match v
    case Null => Nothing
    case Scalar(text) => Leaf(text)
    case Dict(_) => Section
  }

  function Get(v: Val, key: string): Val {
    if v.Dict? && key in v.fields then v.fields[key] else Null
  }

  /** The value that is written at a path, if the document mentions it. */
  function Lookup(v: Val, p: Path): Option<Val> {
    if p == [] then Some(v)
    else if v.Dict? && p[0] in v.fields then Lookup(v.fields[p[0]], p[1..])
    else None
  }

  function KindAt(v: Val, p: Path): Kind {
    if p == [] then KindOf(v)
    else if v.Dict? && p[0] in v.fields then KindAt(v.fields[p[0]], p[1..])
    else Nothing
  }

  /** Two documents that no reader can tell apart. */
  ghost predicate SameDocument(a: Val, b: Val) {
    forall p :: KindAt(a, p) == KindAt(b, p)
  }
}
