/**
 * Record naming: how a schema's identity, a (name, namespace) pair and the
 * full name derived from it, is computed from a dotted class path, the
 * name/namespace overrides carried by annotations, and a naming strategy.
 */
module Naming {
  import opened Wrappers
  import opened Text

  /** A naming strategy maps a raw identifier to the identifier used in the schema. */
  type NamingStrategy = string -> string

  /** The default strategy leaves identifiers as they are. */
  function DefaultNamingStrategy(name: string): string {
    name
  }

  /**
   * What the annotation extractor finds in an annotation list: an explicit
   * record name (`@AvroName`) and an explicit namespace (`@AvroNamespace`),
   * each possibly absent.
   */
  datatype AnnotationView = AnnotationView(name: Option<string>, namespace: Option<string>)

  /** An annotation list that overrides nothing. */
  const NoOverrides := AnnotationView(None, None)

  /** One element (property) of a serial descriptor: its name and its own annotations. */
  datatype Element = Element(name: string, annotations: AnnotationView)

  /** The parts of a serial descriptor that record naming reads. */
  datatype SerialDescriptor = SerialDescriptor(
    serialName: string,
    isNullable: bool,
    annotations: AnnotationView,
    elements: seq<Element>)

  /** The constructor marker that compiled class paths may contain. */
  const InitMarker := ".<init>"
  /** The anonymous-class marker that compiled class paths may contain. */
  const AnonymousMarker := ".<anonymous>"

  /** A record's identity: its simple name and its (nullable) namespace. */
  datatype RecordNaming = RecordNaming(name: string, namespace: Option<string>) {

    /** The full name: "namespace.name", or the bare name when the namespace is null. */
    function FullName(): (f: string)
      // the name always ends the full name
      ensures |name| <= |f| && f[|f| - |name|..] == name
      // a namespace, even an empty one, is followed by one dot and then the name
      ensures namespace.Some? ==>
        |f| == |namespace.value| + 1 + |name| && f[..|namespace.value|] == namespace.value && f[|namespace.value|] == '.'
      // without a namespace nothing precedes the name
      ensures namespace.None? ==> |f| == |name|
    {
      match namespace
      case Some(ns) => ns + "." + name
      case None => name
    }
  }

  /** The class path with every `.<init>` removed, and then every `.<anonymous>`. */
  function Normalize(path: string): (r: string)
    // removing markers never lengthens the path
    ensures |r| <= |path|
    // a path without a dot holds no marker and is left as it is
    ensures '.' !in path ==> r == path
  {
    RemoveNeverLengthens(path, InitMarker);
    RemoveNeverLengthens(Replace(path, InitMarker, ""), AnonymousMarker);
    ReplaceMarkerKeepsDotFree(path, InitMarker, "");
    ReplaceMarkerKeepsDotFree(path, AnonymousMarker, "");
    Replace(Replace(path, InitMarker, ""), AnonymousMarker, "")
  }

  /** The record naming for a class path, annotation overrides and naming strategy. */
  function FromPath(path: string, annotations: AnnotationView, namingStrategy: NamingStrategy): (r: RecordNaming)
    // the namespace is never null on this path, only possibly empty
    ensures r.namespace.Some?
    ensures annotations.namespace.Some? ==> r.namespace == annotations.namespace
    ensures annotations.namespace.None? ==> r.namespace == Some(BeforeLastDot(Normalize(path)))
    ensures annotations.name.Some? ==> r.name == namingStrategy(annotations.name.value)
    ensures annotations.name.None? ==> r.name == namingStrategy(AfterLastDot(Normalize(path)))
  {
    var className := Normalize(path);
    var namespace := annotations.namespace.GetOr(Join(DropLast(Split(className))));
    var avroName := annotations.name.GetOr(Last(Split(className)));
    SplitAtLastDot(className);
    RecordNaming(namingStrategy(avroName), Some(namespace))
  }

  /** The serial name with one trailing `?` removed, but only for a nullable descriptor. */
  function DescriptorPath(descriptor: SerialDescriptor): (path: string)
    ensures var sn := descriptor.serialName;
      path == if descriptor.isNullable && |sn| > 0 && sn[|sn| - 1] == '?' then sn[..|sn| - 1] else sn
  {
    if descriptor.isNullable then RemoveSuffix(descriptor.serialName, "?") else descriptor.serialName
  }

  /** The record naming of a descriptor, from its serial name and its own annotations. */
  function FromDescriptor(descriptor: SerialDescriptor, namingStrategy: NamingStrategy): (r: RecordNaming)
    ensures r.namespace.Some?
    // the descriptor's own annotations decide the overrides
    ensures descriptor.annotations.namespace.Some? ==> r.namespace == descriptor.annotations.namespace
    ensures descriptor.annotations.name.Some? ==> r.name == namingStrategy(descriptor.annotations.name.value)
    // otherwise both parts come from the serial name, after the nullable `?` is dropped
    ensures descriptor.annotations.namespace.None? ==>
      r.namespace == Some(BeforeLastDot(Normalize(DescriptorPath(descriptor))))
    ensures descriptor.annotations.name.None? ==>
      r.name == namingStrategy(AfterLastDot(Normalize(DescriptorPath(descriptor))))
  {
    FromPath(DescriptorPath(descriptor), descriptor.annotations, namingStrategy)
  }

  /**
   * The record naming of the element at `index` of a descriptor, from that
   * element's name and annotations; an index outside the elements fails
   * (the descriptor throws), modelled as `None`.
   */
  function FromElement(descriptor: SerialDescriptor, index: int, namingStrategy: NamingStrategy): (r: Option<RecordNaming>)
    ensures r.Some? <==> 0 <= index < |descriptor.elements|
    ensures r.Some? ==>
      r.value == FromPath(descriptor.elements[index].name, descriptor.elements[index].annotations, namingStrategy)
  {
    if 0 <= index < |descriptor.elements| then
      var element := descriptor.elements[index];
      Some(FromPath(element.name, element.annotations, namingStrategy))
    else
      None
  }

  /** `FromPath` with the default naming strategy. */
  function FromPathDefault(path: string, annotations: AnnotationView): (r: RecordNaming)
    ensures annotations.name.None? ==> r.name == AfterLastDot(Normalize(path))
    ensures annotations.name.Some? ==> r.name == annotations.name.value
    ensures annotations.namespace.Some? ==> r.namespace == annotations.namespace
    ensures annotations.namespace.None? ==> r.namespace == Some(BeforeLastDot(Normalize(path)))
  {
    FromPath(path, annotations, DefaultNamingStrategy)
  }

  /** `FromDescriptor` with the default naming strategy. */
  function FromDescriptorDefault(descriptor: SerialDescriptor): (r: RecordNaming)
    ensures r.namespace.Some?
    ensures descriptor.annotations.name.Some? ==> r.name == descriptor.annotations.name.value
    // with the default strategy the name is the serial name's last segment, unchanged
    ensures descriptor.annotations.name.None? ==> r.name == AfterLastDot(Normalize(DescriptorPath(descriptor)))
  {
    FromDescriptor(descriptor, DefaultNamingStrategy)
  }

  // ---------------------------------------------------------------------
  // Properties of the full name
  // ---------------------------------------------------------------------

  /**
   * The full name can be taken apart again: with a namespace it is the
   * namespace, a dot and the (dot-free) name; without one it is the name.
   */
  lemma FullNameParts(r: RecordNaming)
    ensures r.namespace.Some? && '.' !in r.name ==>
      BeforeLastDot(r.FullName()) == r.namespace.value && AfterLastDot(r.FullName()) == r.name
    ensures r.namespace.None? ==> r.FullName() == r.name
  {
    if r.namespace.Some? && '.' !in r.name {
      LastDotOfJoin(r.namespace.value, r.name);
    }
  }

  /**
   * Two namings with dot-free names and non-null namespaces have the same
   * full name only if they are equal: the full name is a faithful key.
   */
  lemma FullNameInjective(r1: RecordNaming, r2: RecordNaming)
    requires '.' !in r1.name && '.' !in r2.name
    requires r1.namespace.Some? && r2.namespace.Some?
    requires r1.FullName() == r2.FullName()
    ensures r1 == r2
  {
    FullNameParts(r1);
    FullNameParts(r2);
  }

  /**
   * Without the dot-free condition the full name is not a faithful key: a
   * dotted name override gives the same full name as a deeper namespace.
   */
  lemma FullNameCollision()
    ensures FromPathDefault("X", AnnotationView(Some("b.c"), Some("a"))).FullName()
         == FromPathDefault("X", AnnotationView(Some("c"), Some("a.b"))).FullName()
    ensures FromPathDefault("X", AnnotationView(Some("b.c"), Some("a")))
         != FromPathDefault("X", AnnotationView(Some("c"), Some("a.b")))
  {
    assert FromPathDefault("X", AnnotationView(Some("b.c"), Some("a"))) == RecordNaming("b.c", Some("a"));
    assert FromPathDefault("X", AnnotationView(Some("c"), Some("a.b"))) == RecordNaming("c", Some("a.b"));
    assert "a" + "." + "b.c" == "a.b" + "." + "c";
  }

  // ---------------------------------------------------------------------
  // Normalisation
  // ---------------------------------------------------------------------

  /** A path is marker-free when it contains neither `.<init>` nor `.<anonymous>`. */
  ghost predicate MarkerFree(path: string) {
    !Occurs(path, InitMarker) && !Occurs(path, AnonymousMarker)
  }

  /** Normalisation leaves a path unchanged exactly when the path is marker-free. */
  lemma NormalizeUnchangedIff(path: string)
    ensures Normalize(path) == path <==> MarkerFree(path)
  {
    var once := Replace(path, InitMarker, "");
    RemoveNeverLengthens(once, AnonymousMarker);
    if Occurs(path, InitMarker) {
      RemoveShortens(path, InitMarker);
      assert |Normalize(path)| < |path|;
    } else {
      ReplaceAbsent(path, InitMarker, "");
      assert once == path;
      RemoveUnchangedIff(path, AnonymousMarker);
    }
  }

  /** Normalisation ignores a trailing constructor marker. */
  lemma NormalizeTrailingInit(path: string)
    ensures Normalize(path + InitMarker) == Normalize(path)
  {
    ReplaceMarkerConcat(path, InitMarker, InitMarker);
    assert Replace(InitMarker, InitMarker, "") == "";
    assert Replace(path + InitMarker, InitMarker, "") == Replace(path, InitMarker, "");
  }

  /** Normalisation ignores a trailing anonymous-class marker. */
  lemma NormalizeTrailingAnonymous(path: string)
    ensures Normalize(path + AnonymousMarker) == Normalize(path)
  {
    var once := Replace(path, InitMarker, "");
    ReplaceMarkerConcat(path, AnonymousMarker, InitMarker);
    AnonymousKeepsAfterInitRemoval();
    assert Replace(path + AnonymousMarker, InitMarker, "") == once + AnonymousMarker;
    ReplaceMarkerConcat(once, AnonymousMarker, AnonymousMarker);
    assert Replace(AnonymousMarker, AnonymousMarker, "") == "";
    assert Replace(once + AnonymousMarker, AnonymousMarker, "") == Replace(once, AnonymousMarker, "");
  }

  /** Removing `.<init>` does not touch `.<anonymous>`. */
  lemma AnonymousKeepsAfterInitRemoval()
    ensures Replace(AnonymousMarker, InitMarker, "") == AnonymousMarker
  {
    var tail := AnonymousMarker[1..];
    assert !(InitMarker <= AnonymousMarker) by { assert InitMarker[2] != AnonymousMarker[2]; }
    assert '.' !in tail;
    ReplaceMarkerDotFree(tail, InitMarker, "");
    assert [AnonymousMarker[0]] + tail == AnonymousMarker;
  }

  /**
   * A `.<init>` anywhere in the path is removed and the rest is kept: the
   * marker can be cut out wherever the text after it starts a new segment.
   */
  lemma NormalizeDropsInnerInit(a: string, b: string)
    requires b == [] || b[0] == '.'
    ensures Normalize(a + InitMarker + b) == Normalize(a + b)
  {
    if b == [] {
      assert a + InitMarker + b == a + InitMarker && a + b == a;
      NormalizeTrailingInit(a);
    } else {
      ReplaceMarkerConcat(a + InitMarker, b, InitMarker);
      ReplaceMarkerConcat(a, InitMarker, InitMarker);
      ReplaceMarkerConcat(a, b, InitMarker);
      assert Replace(InitMarker, InitMarker, "") == "";
      assert Replace(a + InitMarker + b, InitMarker, "") == Replace(a + b, InitMarker, "");
    }
  }

  /**
   * A `.<anonymous>` anywhere in the path is removed and the rest is kept,
   * provided the text after it does not start with `.<init>`: removing that
   * `.<init>` first could otherwise complete a new `.<anonymous>`.
   */
  lemma NormalizeDropsInnerAnonymous(a: string, b: string)
    requires b == [] || (b[0] == '.' && !(InitMarker <= b))
    ensures Normalize(a + AnonymousMarker + b) == Normalize(a + b)
  {
    if b == [] {
      assert a + AnonymousMarker + b == a + AnonymousMarker && a + b == a;
      NormalizeTrailingAnonymous(a);
    } else {
      var pa := Replace(a, InitMarker, "");
      var pb := Replace(b, InitMarker, "");
      InnerAnonymousFirstPass(a, b);
      InnerAnonymousSecondPass(pa, pb);
    }
  }

  /**
   * Without the condition on the text that follows, an inner `.<anonymous>`
   * can matter. In "q.<anon" + ".<anonymous>" + ".<init>ymous>" the second
   * pass removes the inner marker and joins "q.<anon" to "ymous>", which is
   * not searched again, so "q.<anonymous>" remains. Without the inner marker
   * the first pass completes a `.<anonymous>`, which the second removes,
   * leaving "q".
   */
  lemma InnerAnonymousCanReform()
    ensures Normalize("q" + ".<anon" + AnonymousMarker + ".<init>ymous>") == "q.<anonymous>"
    ensures Normalize("q" + ".<anon" + ".<init>ymous>") == "q"
  {
    ReformWithInner("q", ".<anon", ".<init>ymous>");
    ReformWithoutInner("q", ".<anon", ".<init>ymous>");
  }

  // The helpers below compute one concrete case. They take the literal pieces
  // as parameters fixed by `requires`, so that the verifier does not unfold
  // `Replace` on string constants.

  /** The first pass on "q.<anon.<anonymous>.<init>ymous>" removes `.<init>` only. */
  lemma ReformFirstPass(head: string, anon: string, tail: string)
    requires head == "q" && anon == ".<anon" && tail == ".<init>ymous>"
    ensures Replace(head + anon + AnonymousMarker + tail, InitMarker, "") == head + anon + (AnonymousMarker + "ymous>")
  {
    ReformKeepsHead(head, anon);
    ReformTail(tail);
    ReplaceMarkerConcat(head + anon + AnonymousMarker, tail, InitMarker);
    assert head + anon + AnonymousMarker + "ymous>" == head + anon + (AnonymousMarker + "ymous>");
  }

  /** The first pass turns ".<init>ymous>" into "ymous>". */
  lemma ReformTail(tail: string)
    requires tail == ".<init>ymous>"
    ensures Replace(tail, InitMarker, "") == "ymous>"
  {
    ReplaceMarkerSegment(tail, InitMarker);
    assert tail[|InitMarker|..] == "ymous>";
  }

  /** The first pass leaves "q.<anon.<anonymous>" alone. */
  lemma ReformKeepsHead(head: string, anon: string)
    requires head == "q" && anon == ".<anon"
    ensures Replace(head + anon + AnonymousMarker, InitMarker, "") == head + anon + AnonymousMarker
  {
    ReplaceMarkerDotFree(head, InitMarker, "");
    ReplaceMarkerSegment(anon, InitMarker);
    AnonymousKeepsAfterInitRemoval();
    ReplaceMarkerConcat(head, anon, InitMarker);
    assert Replace(head + anon, InitMarker, "") == head + anon;
    ReplaceMarkerConcat(head + anon, AnonymousMarker, InitMarker);
  }

  /** With the inner marker the path normalises to "q.<anonymous>". */
  lemma ReformWithInner(head: string, anon: string, tail: string)
    requires head == "q" && anon == ".<anon" && tail == ".<init>ymous>"
    ensures Normalize(head + anon + AnonymousMarker + tail) == "q.<anonymous>"
  {
    ReformFirstPass(head, anon, tail);
    ReformSecondPass(head, anon, AnonymousMarker + "ymous>");
    assert head + anon + "ymous>" == "q.<anonymous>";
  }

  /** The second pass on "q.<anon.<anonymous>ymous>" removes the `.<anonymous>` segment's head. */
  lemma ReformSecondPass(head: string, anon: string, rest: string)
    requires head == "q" && anon == ".<anon" && rest == AnonymousMarker + "ymous>"
    ensures Replace(head + anon + rest, AnonymousMarker, "") == head + anon + "ymous>"
  {
    ReplaceMarkerDotFree(head, AnonymousMarker, "");
    ReplaceMarkerSegment(rest, AnonymousMarker);
    assert rest[|AnonymousMarker|..] == "ymous>";
    ReplaceMarkerSegment(anon, AnonymousMarker);
    ReplaceMarkerConcat(head + anon, rest, AnonymousMarker);
    ReplaceMarkerConcat(head, anon, AnonymousMarker);
  }

  /** Without it the first pass forms a `.<anonymous>` that the second removes. */
  lemma ReformWithoutInner(head: string, anon: string, tail: string)
    requires head == "q" && anon == ".<anon" && tail == ".<init>ymous>"
    ensures Normalize(head + anon + tail) == "q"
  {
    ReformWithoutInnerFirstPass(head, anon, tail);
    ReplaceMarkerDotFree(head, AnonymousMarker, "");
    ReplaceMarkerSegment(AnonymousMarker, AnonymousMarker);
    ReplaceMarkerConcat(head, AnonymousMarker, AnonymousMarker);
    assert AnonymousMarker[|AnonymousMarker|..] == "";
  }

  /** Without the inner marker, the first pass completes a `.<anonymous>`. */
  lemma ReformWithoutInnerFirstPass(head: string, anon: string, tail: string)
    requires head == "q" && anon == ".<anon" && tail == ".<init>ymous>"
    ensures Replace(head + anon + tail, InitMarker, "") == head + AnonymousMarker
  {
    ReplaceMarkerDotFree(head, InitMarker, "");
    ReplaceMarkerSegment(anon, InitMarker);
    ReformTail(tail);
    ReplaceMarkerConcat(head + anon, tail, InitMarker);
    ReplaceMarkerConcat(head, anon, InitMarker);
    assert anon + "ymous>" == AnonymousMarker;
  }

  /** The first pass keeps a `.<anonymous>` and the cut after it. */
  lemma InnerAnonymousFirstPass(a: string, b: string)
    requires |b| > 0 && b[0] == '.' && !(InitMarker <= b)
    ensures var pb := Replace(b, InitMarker, "");
      |pb| > 0 && pb[0] == '.'
    ensures Replace(a + AnonymousMarker + b, InitMarker, "")
         == Replace(a, InitMarker, "") + AnonymousMarker + Replace(b, InitMarker, "")
    ensures Replace(a + b, InitMarker, "") == Replace(a, InitMarker, "") + Replace(b, InitMarker, "")
  {
    var pa := Replace(a, InitMarker, "");
    var pb := Replace(b, InitMarker, "");
    assert pb == [b[0]] + Replace(b[1..], InitMarker, "");
    ReplaceMarkerConcat(a + AnonymousMarker, b, InitMarker);
    ReplaceMarkerConcat(a, AnonymousMarker, InitMarker);
    ReplaceMarkerConcat(a, b, InitMarker);
    AnonymousKeepsAfterInitRemoval();
  }

  /** The second pass removes a `.<anonymous>` followed by a new segment. */
  lemma InnerAnonymousSecondPass(pa: string, pb: string)
    requires |pb| > 0 && pb[0] == '.'
    ensures Replace(pa + AnonymousMarker + pb, AnonymousMarker, "") == Replace(pa + pb, AnonymousMarker, "")
  {
    var m := AnonymousMarker;
    assert IsMarker(m);
    var qa := Replace(pa, m, "");
    var qb := Replace(pb, m, "");
    ReplaceMarkerConcat(pa + m, pb, m);
    ReplaceMarkerConcat(pa, m, m);
    assert Replace(m, m, "") == "";
    assert Replace(pa + m, m, "") == qa;
    ReplaceMarkerConcat(pa, pb, m);
  }

  /**
   * Normalisation is a single pass: removing a marker can bring together a
   * new marker that is not removed again ("a..<init><init>" becomes "a.<init>").
   */
  lemma NormalizeSinglePass()
    ensures Normalize("a." + InitMarker + "<init>") == "a" + InitMarker
  {
    SinglePassRemovesInner();
    SinglePassKeepsOuter();
  }

  /** The first pass removes the inner `.<init>` of "a..<init><init>" and nothing else. */
  lemma SinglePassRemovesInner()
    ensures Replace("a." + InitMarker + "<init>", InitMarker, "") == "a" + InitMarker
  {
    SinglePassSegments("a", ".", InitMarker + "<init>");
    assert "a." + InitMarker + "<init>" == "a" + "." + (InitMarker + "<init>");
    assert "a" + "." + "<init>" == "a" + InitMarker;
  }

  /**
   * The same, segment by segment: "a", "." and ".<init><init>", passed as
   * parameters so that the verifier does not unfold `Replace` on constants.
   */
  lemma SinglePassSegments(head: string, dot: string, rest: string)
    requires head == "a" && dot == "." && rest == InitMarker + "<init>"
    ensures Replace(head + dot + rest, InitMarker, "") == head + dot + "<init>"
  {
    ReplaceMarkerDotFree(head, InitMarker, "");
    ReplaceMarkerSegment(dot, InitMarker);
    ReplaceMarkerSegment(rest, InitMarker);
    assert rest[|InitMarker|..] == "<init>";
    ReplaceMarkerConcat(head, dot, InitMarker);
    ReplaceMarkerConcat(head + dot, rest, InitMarker);
  }

  /** The second pass finds no `.<anonymous>` in "a.<init>". */
  lemma SinglePassKeepsOuter()
    ensures Replace("a" + InitMarker, AnonymousMarker, "") == "a" + InitMarker
  {
    var tag := "<init>";
    var t := "a" + InitMarker;
    ReplaceMarkerDotFree(tag, AnonymousMarker, "");
    assert InitMarker[1..] == tag;
    assert InitMarker[2] != AnonymousMarker[2];
    assert Replace(InitMarker, AnonymousMarker, "") == InitMarker;
    assert t[0] != AnonymousMarker[0];
    assert t[1..] == InitMarker;
  }

  // ---------------------------------------------------------------------
  // Properties of the naming of a path
  // ---------------------------------------------------------------------

  /** A trailing `.<init>` or `.<anonymous>` does not change the naming. */
  lemma TrailingMarkerIgnored(path: string, annotations: AnnotationView, namingStrategy: NamingStrategy)
    ensures FromPath(path + InitMarker, annotations, namingStrategy) == FromPath(path, annotations, namingStrategy)
    ensures FromPath(path + AnonymousMarker, annotations, namingStrategy) == FromPath(path, annotations, namingStrategy)
  {
    NormalizeTrailingInit(path);
    NormalizeTrailingAnonymous(path);
  }

  /** Without a namespace override, a dot-free path gets the empty namespace, never null. */
  lemma DotlessPathEmptyNamespace(path: string, annotations: AnnotationView, namingStrategy: NamingStrategy)
    requires '.' !in path && annotations.namespace.None?
    ensures FromPath(path, annotations, namingStrategy).namespace == Some("")
    ensures annotations.name.None? ==> FromPath(path, annotations, namingStrategy).name == namingStrategy(path)
  {
    ReplaceMarkerDotFree(path, InitMarker, "");
    ReplaceMarkerDotFree(path, AnonymousMarker, "");
    DotFreeSplitsToItself(path);
  }

  /**
   * A name override changes only the name: the namespace is what it would
   * have been without the override.
   */
  lemma NameOverrideOnlyChangesName(path: string, name: string, namespace: Option<string>, namingStrategy: NamingStrategy)
    ensures FromPath(path, AnnotationView(Some(name), namespace), namingStrategy).namespace
         == FromPath(path, AnnotationView(None, namespace), namingStrategy).namespace
    ensures FromPath(path, AnnotationView(Some(name), namespace), namingStrategy).name == namingStrategy(name)
  {
  }

  /**
   * A namespace override changes only the namespace: the name is still the
   * strategy applied to the last segment of the path.
   */
  lemma NamespaceOverrideOnlyChangesNamespace(path: string, name: Option<string>, namespace: string, namingStrategy: NamingStrategy)
    ensures FromPath(path, AnnotationView(name, Some(namespace)), namingStrategy).name
         == FromPath(path, AnnotationView(name, None), namingStrategy).name
    ensures FromPath(path, AnnotationView(name, Some(namespace)), namingStrategy).namespace == Some(namespace)
  {
  }

  /**
   * The naming strategy touches the name only: the namespace does not
   * depend on it, and the name is the strategy applied to the default name.
   */
  lemma StrategyOnlyAffectsName(path: string, annotations: AnnotationView, namingStrategy: NamingStrategy)
    ensures FromPath(path, annotations, namingStrategy).namespace == FromPathDefault(path, annotations).namespace
    ensures FromPath(path, annotations, namingStrategy).name == namingStrategy(FromPathDefault(path, annotations).name)
  {
  }

  /** With the default strategy and no overrides, a normalised path is cut at its last dot. */
  lemma DefaultNamingOfNormalPath(path: string)
    requires Normalize(path) == path
    ensures FromPathDefault(path, NoOverrides) == RecordNaming(AfterLastDot(path), Some(BeforeLastDot(path)))
  {
  }

  /**
   * Round trip: with the default strategy and no overrides, a marker-free
   * path that contains a dot is its own full name; a dot-free one comes back
   * with a leading dot, since its namespace is "" rather than null.
   */
  lemma FullNameRoundTrip(path: string)
    requires MarkerFree(path)
    ensures '.' in path ==> FromPathDefault(path, NoOverrides).FullName() == path
    ensures '.' !in path ==> FromPathDefault(path, NoOverrides).FullName() == "." + path
  {
    NormalizeUnchangedIff(path);
    DefaultNamingOfNormalPath(path);
    var r := FromPathDefault(path, NoOverrides);
    assert r.FullName() == BeforeLastDot(path) + "." + AfterLastDot(path);
    if '.' in path {
      LastDotRebuilds(path);
    } else {
      DotFreeSplitsToItself(path);
    }
  }

  // ---------------------------------------------------------------------
  // Properties of the descriptor overloads
  // ---------------------------------------------------------------------

  /** A nullable descriptor's name loses one trailing `?` before naming. */
  lemma NullableDropsOneQuestionMark(descriptor: SerialDescriptor, base: string, namingStrategy: NamingStrategy)
    requires descriptor.isNullable && descriptor.serialName == base + "?"
    ensures FromDescriptor(descriptor, namingStrategy) == FromPath(base, descriptor.annotations, namingStrategy)
  {
    assert descriptor.serialName[..|descriptor.serialName| - 1] == base;
    assert DescriptorPath(descriptor) == base;
    assert FromDescriptor(descriptor, namingStrategy)
        == FromPath(DescriptorPath(descriptor), descriptor.annotations, namingStrategy);
  }

  /** A non-nullable descriptor is named from its serial name as it stands, `?` included. */
  lemma NonNullableKeepsSerialName(descriptor: SerialDescriptor, namingStrategy: NamingStrategy)
    requires !descriptor.isNullable
    ensures FromDescriptor(descriptor, namingStrategy)
         == FromPath(descriptor.serialName, descriptor.annotations, namingStrategy)
  {
  }

  /**
   * The default-strategy descriptor overload names a descriptor as the
   * default-strategy path overload names its serial name (after the
   * nullable `?` is dropped).
   */
  lemma DescriptorDefaultIsPathDefault(descriptor: SerialDescriptor)
    ensures FromDescriptorDefault(descriptor) == FromPathDefault(DescriptorPath(descriptor), descriptor.annotations)
  {
  }

  /**
   * The indexed overload reads only the element: descriptors that agree on
   * their elements give the same element naming, whatever their own serial
   * name, nullability and annotations.
   */
  lemma ElementIgnoresOwner(d1: SerialDescriptor, d2: SerialDescriptor, index: int, namingStrategy: NamingStrategy)
    requires d1.elements == d2.elements
    ensures FromElement(d1, index, namingStrategy) == FromElement(d2, index, namingStrategy)
  {
  }
}
