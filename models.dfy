/** The values the binding engine works on: installed document copies, the
    registry that holds them, renderer keys and resolved renderers. */
module Models {
  import opened KotlinStd

  /** A Kotlin class (`KClass`) of a copy model or a document spec, identified by name. */
  type Tag = string

  /** An installed template: the copy model it binds from, the document specs it may
      render into, and its field templates (a field may be bound to `null`). */
  datatype DocumentCopy = DocumentCopy(
    source: Tag,
    targets: seq<Tag>,
    fields: map<string, Option<string>>)

  /** The (copy model, document spec) identity of a renderer. */
  datatype RendererKey = RendererKey(source: Tag, target: Tag)

  /** A resolved renderer: the document spec it constructs, the parameter names of
      that spec's primary constructor, and the reconciled field map. */
  datatype Renderer = Renderer(
    target: Tag,
    parameters: seq<Option<string>>,
    fields: map<string, Option<string>>)

  /** Why a renderer cannot be built. The first two are `BarberException`s; the third
      is the null-pointer failure of `primaryConstructor!!`. */
  datatype BarberError =
    | UnboundCopyModel(copyModel: Tag)
    | InvalidTarget(target: Tag, validTargets: seq<Tag>)
    | NoPrimaryConstructor(target: Tag)

  datatype Result<T> = Ok(value: T) | Err(error: BarberError)

  /** What reflection reports about each document spec class: the names of its
      primary constructor's parameters in declaration order (a parameter name may
      be `null`). A class missing from the table has no primary constructor. */
  type ConstructorTable = map<Tag, seq<Option<string>>>

  /** `installedDocumentCopy`: the installed copies keyed by copy model class, and the
      order in which the map's entries are iterated. */
  datatype Registry = Registry(order: seq<Tag>, copies: map<Tag, DocumentCopy>) {

    /** The iteration order visits every installed key exactly once. */
    predicate Valid() {
      OrderLists(order, copies.Keys)
    }

    /** The installed copies in iteration order (`entry.value` for each entry). */
    function Installed(): seq<DocumentCopy>
      requires Valid()
    {
      seq(|order|, i requires 0 <= i < |order| && Valid() => copies[order[i]])
    }

    /** Iterating the registry yields one copy per entry: every installed copy, and
        nothing that is not installed. */
    lemma InstalledSpec()
      requires Valid()
      ensures |Installed()| == |order|
      ensures forall t :: t in copies ==> copies[t] in Installed()
      ensures forall c :: c in Installed() ==> c in copies.Values
    {
      forall t | t in copies
        ensures copies[t] in Installed()
      {
        var i :| 0 <= i < |order| && order[i] == t;
        assert Installed()[i] == copies[t];
      }
    }

    /** Every installed copy names, as its source, the key it is installed under. */
    predicate SourcesMatch() {
      forall t :: t in copies ==> copies[t].source == t
    }

    /** Every target of every installed copy has a primary constructor. */
    predicate ConstructorsKnown(ctors: ConstructorTable) {
      forall t, s :: t in copies && s in copies[t].targets ==> s in ctors
    }
  }
}
