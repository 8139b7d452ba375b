/** The reflection data model: a type descriptor as the runtime reports it.
    A `Type` holds its supertypes by value, so every type graph is finite and
    acyclic by construction; a type reachable along two routes (a diamond) is
    simply the same value shared by both. */
module Types {
  import opened Wrappers

  /** An annotation type, identified by its name. */
  type Annotation = string

  /** A declared method or field: its name and the annotations present on it. */
  datatype Member = Member(name: string, annotations: set<Annotation>)

  /** A class or interface: `superclass` is `None` for interfaces and for the
      root of the class hierarchy; `interfaces`, `methods` and `fields` are the
      directly declared ones, in declaration order. */
  datatype Type = Type(
    name: string,
    superclass: Option<Type>,
    interfaces: seq<Type>,
    methods: seq<Member>,
    fields: seq<Member>)
}
