/** LifecyclePolicy.java: contributor lifetimes. */
module LifecyclePolicy {
  import opened Wrappers
  import opened Model

  const NANOS_PER_SECOND := 1_000_000_000
  const NANOS_PER_MILLI := 1_000_000
  const MILLIS_PER_SECOND := 1_000

  function IndexOf(text: string, c: char): (i: int)
    ensures -1 <= i < |text|
    ensures i >= 0 ==> text[i] == c && c !in text[..i]
    ensures i == -1 <==> c !in text
  {
    if text == "" then -1
    else if text[0] == c then 0
    else
      var rest := IndexOf(text[1..], c);
      if rest < 0 then -1 else (assert text[..rest + 1] == [text[0]] + text[1..][..rest]; rest + 1)
  }

  /** The text before the first colon; null when there is no colon or nothing before it. */
  function EntityType(id: string): (r: Option<string>)
    ensures r.Some? ==> r.value != "" && r.value + ":" <= id && ':' !in r.value
  {
    var separator := IndexOf(id, ':');
    if separator < 1 then None
    else (assert id[..separator] + ":" == id[..separator + 1]; Some(id[..separator]))
  }

  lemma EntityTypeAbsent(id: string)
    ensures EntityType(id).None? <==> ':' !in id || id[0] == ':'
  {
    var separator := IndexOf(id, ':');
    if separator > 0 { assert id[0] in id[..separator]; }
  }

  function Min(a: int, b: int): int {
    if a <= b then a else b
  }

  function Max(a: int, b: int): int {
    if a >= b then a else b
  }

  datatype Policy = Policy(defaultSeconds: int, typeSeconds: map<string, int>) {
    /** What the constructor demands. */
    predicate Valid() {
      defaultSeconds > 0 && forall t | t in typeSeconds :: typeSeconds[t] > 0
    }

    function Seconds(semanticType: string, fallback: int): int {
      if semanticType in typeSeconds then typeSeconds[semanticType] else fallback
    }

    /** A node's own lifetime; an edge never exceeds either endpoint's. None: an endpoint id has no type. */
    function TtlSeconds(element: Element): (ttl: Option<int>)
      ensures Valid() && ttl.Some? ==> ttl.value > 0
      ensures element.Node? ==> ttl.Some?
    {
      match element
      case Node(_, semanticType, _) => Some(Seconds(semanticType, defaultSeconds))
      case Edge(_, semanticType, sourceId, targetId, _) =>
        var source, target := EntityType(sourceId), EntityType(targetId);
        if source.None? || target.None? then None
        else
          var endpoints := Min(Seconds(source.value, defaultSeconds), Seconds(target.value, defaultSeconds));
          Some(Min(Seconds(semanticType, endpoints), endpoints))
    }

    /** A node lives as long as the table says for its type, or the default. */
    lemma NodeLifetime(node: Element)
      requires node.Node?
      ensures node.semanticType in typeSeconds ==> TtlSeconds(node) == Some(typeSeconds[node.semanticType])
      ensures node.semanticType !in typeSeconds ==> TtlSeconds(node) == Some(defaultSeconds)
    {
    }

    /**
     An edge lives as long as the table says for its type, but no longer than either endpoint node; without an
     entry it lives as long as the shorter-lived of them.
     */
    lemma EdgeLifetime(edge: Element, source: Element, target: Element)
      requires edge.Edge? && source.Node? && target.Node?
      requires edge.sourceId == source.id && EntityType(source.id) == Some(source.semanticType)
      requires edge.targetId == target.id && EntityType(target.id) == Some(target.semanticType)
      ensures TtlSeconds(edge).Some? && TtlSeconds(source).Some? && TtlSeconds(target).Some?
      ensures var ttl, s, t := TtlSeconds(edge).value, TtlSeconds(source).value, TtlSeconds(target).value;
        && ttl <= s && ttl <= t
        && (edge.semanticType !in typeSeconds ==> ttl == s || ttl == t)
        && (edge.semanticType in typeSeconds ==>
          && ttl <= typeSeconds[edge.semanticType]
          && (ttl == s || ttl == t || ttl == typeSeconds[edge.semanticType]))
    {
    }

    /** Only an edge with an endpoint id without a type has no lifetime. */
    lemma NoLifetime(e: Element)
      ensures TtlSeconds(e).None? <==> e.Edge? && (EntityType(e.sourceId).None? || EntityType(e.targetId).None?)
    {
    }

    /** An entry of the table concerns its own type's elements and the edges at them. */
    lemma OtherTypesKeepTheirLifetime(e: Element, t: string, seconds: int)
      requires e.semanticType != t
      requires e.Edge? ==> EntityType(e.sourceId) != Some(t) && EntityType(e.targetId) != Some(t)
      ensures this.(typeSeconds := typeSeconds[t := seconds]).TtlSeconds(e) == TtlSeconds(e)
      ensures this.(typeSeconds := typeSeconds - {t}).TtlSeconds(e) == TtlSeconds(e)
    {
    }

    /** The lifetime depends on the identity alone, so every contributor of an element shares it. */
    lemma TtlOfIdentity(a: Element, b: Element)
      requires a.Identity() == b.Identity()
      ensures TtlSeconds(a) == TtlSeconds(b)
    {
      assert a == a.Identity().(attributes := a.attributes);
      assert b == a.Identity().(attributes := b.attributes);
    }
  }

  /** The two deadlines of an observation: event time from its own time or the watermark, processing time from now. */
  function SnapshotOf(c: Contribution, seconds: int, watermarkNanos: int, processingMillis: int): Snapshot {
    Snapshot(
      c.observedAt,
      Some(Max(c.observedAt, watermarkNanos) + seconds * NANOS_PER_SECOND),
      Some(processingMillis + seconds * MILLIS_PER_SECOND),
      c.element)
  }
}
