/** The component registry of the node: a map from component names to their
    actor and component type, and the links between components that the
    registry has set up. Actor handles are opaque values; the messages the
    registry sends to actors are not part of this model. */
module Tracker {

  datatype Option<T> = None | Some(value: T)

  /** The component types the registry knows (component::invalid first). */
  datatype Component = InvalidComponent | Importer | Exporter | Receiver | Archive | Index | Search

  /** An actor handle, or invalid_actor. */
  datatype Actor = InvalidActor | Handle(id: nat)

  datatype ActorState = ActorState(actor: Actor, kind: Component)

  /** One entry of the std::map actors_, keyed by name. */
  datatype Entry = Entry(name: string, state: ActorState)

  /** The errors the handlers reply with, each naming its subject. */
  datatype Failure =
    | InvalidType(kind: string)
    | TypeMismatch(name: string)
    | DuplicateActor(name: string)
    | UnknownActor(name: string)
    | UnknownSource(source: string)
    | UnknownSink(sink: string)
    | InvalidSource(source: string)
    | SinkNotReceiver(sink: string)
    | SinkNotArchiveOrIndex(sink: string)

  /** A handler's reply: the ok atom, an actor handle, or an error. */
  datatype Reply = Ok | Found(actor: Actor) | Error(failure: Failure)

  /** The type string of a put request, or InvalidComponent when it names none. */
  function ParseComponent(kind: string): (c: Component)
    ensures c == InvalidComponent <==>
              kind !in {"importer", "exporter", "receiver", "archive", "index", "search"}
  {
    if kind == "importer" then Importer
    else if kind == "exporter" then Exporter
    else if kind == "receiver" then Receiver
    else if kind == "archive" then Archive
    else if kind == "index" then Index
    else if kind == "search" then Search
    else InvalidComponent
  }

  // -- key order ----------------------------------------------------------------

  /** The order of std::string keys: lexicographic by character, a proper
      prefix first. */
  predicate Before(a: string, b: string)
  {
    if a == [] then b != []
    else if b == [] then false
    else if a[0] != b[0] then a[0] < b[0]
    else Before(a[1..], b[1..])
  }

  lemma {:induction false} BeforeIrreflexive(a: string)
    ensures !Before(a, a)
  {
    if a != [] {
      BeforeIrreflexive(a[1..]);
    }
  }

  lemma {:induction false} BeforeTransitive(a: string, b: string, c: string)
    requires Before(a, b) && Before(b, c)
    ensures Before(a, c)
  {
    if a != [] && a[0] == b[0] && b[0] == c[0] {
      BeforeTransitive(a[1..], b[1..], c[1..]);
    }
  }

  lemma {:induction false} BeforeTotal(a: string, b: string)
    requires a != b
    ensures Before(a, b) || Before(b, a)
  {
    if a != [] && b != [] && a[0] == b[0] {
      assert a == [a[0]] + a[1..] && b == [b[0]] + b[1..];
      BeforeTotal(a[1..], b[1..]);
    }
  }

  /** Strictly increasing keys, as the map keeps them. */
  ghost predicate Sorted(es: seq<Entry>)
  {
    forall i, j :: 0 <= i < j < |es| ==> Before(es[i].name, es[j].name)
  }

  // -- lookup -------------------------------------------------------------------

  /** actors_.find(name): the index of the entry with that name, or |es| (end()). */
  function Find(es: seq<Entry>, name: string): (i: nat)
    ensures i <= |es|
    ensures i < |es| ==> es[i].name == name
    ensures forall j :: 0 <= j < i ==> es[j].name != name
  {
    if es == [] then 0
    else if es[0].name == name then 0
    else 1 + Find(es[1..], name)
  }

  /** The state registered under a name. */
  function Lookup(es: seq<Entry>, name: string): Option<ActorState>
  {
    var i := Find(es, name);
    if i < |es| then Some(es[i].state) else None
  }

  /** The type registered under a name, InvalidComponent for an unknown name. */
  function KindOf(es: seq<Entry>, name: string): Component
  {
    match Lookup(es, name)
    case None => InvalidComponent
    case Some(st) => st.kind
  }

  /** A registered name is found at its entry. */
  lemma FindPresent(es: seq<Entry>, name: string)
    ensures Find(es, name) < |es| <==> exists i :: 0 <= i < |es| && es[i].name == name
  {
  }

  /** In sorted entries every name occurs once, so it is found at its own entry. */
  lemma FindSorted(es: seq<Entry>, i: nat)
    requires Sorted(es) && i < |es|
    ensures Find(es, es[i].name) == i
  {
    var j := Find(es, es[i].name);
    if j < i {
      BeforeIrreflexive(es[i].name);
      assert false;
    }
  }

  /** Two entry sequences with the same names find every name at the same index. */
  lemma {:induction false} FindSameNames(es: seq<Entry>, es': seq<Entry>, name: string)
    requires |es| == |es'| && forall i :: 0 <= i < |es| ==> es[i].name == es'[i].name
    ensures Find(es, name) == Find(es', name)
  {
    if es != [] && es[0].name != name {
      FindSameNames(es[1..], es'[1..], name);
    }
  }

  /** Rewriting the state of the entry found for a name changes the lookup of
      that name only. */
  lemma UpdateLookup(es: seq<Entry>, name: string, st: ActorState, n: string)
    requires Find(es, name) < |es|
    ensures Lookup(es[Find(es, name) := Entry(name, st)], n) == if n == name then Some(st) else Lookup(es, n)
  {
    var es' := es[Find(es, name) := Entry(name, st)];
    FindSameNames(es, es', n);
  }

  // -- insertion ----------------------------------------------------------------

  /** actors_.emplace of a new name: the entry goes where the key order puts it. */
  function Insert(es: seq<Entry>, e: Entry): (r: seq<Entry>)
    ensures |r| == |es| + 1
    ensures forall x :: x in r <==> x in es || x == e
  {
    if es == [] || Before(e.name, es[0].name) then [e] + es
    else [es[0]] + Insert(es[1..], e)
  }

  /** Inserting a name that is not yet registered keeps the keys sorted. */
  lemma {:induction false} InsertSorted(es: seq<Entry>, e: Entry)
    requires Sorted(es) && Find(es, e.name) == |es|
    ensures Sorted(Insert(es, e))
  {
    var r := Insert(es, e);
    if es == [] {
    } else if Before(e.name, es[0].name) {
      forall j | 1 <= j < |r| ensures Before(r[0].name, r[j].name) {
        if j > 1 {
          BeforeTransitive(e.name, es[0].name, es[j - 1].name);
        }
      }
    } else {
      BeforeTotal(e.name, es[0].name);
      var tail := es[1..];
      assert Find(tail, e.name) == |tail|;
      InsertSorted(tail, e);
      forall j | 1 <= j < |r| ensures Before(r[0].name, r[j].name) {
        assert r[j] in Insert(tail, e);
        if r[j] != e {
          assert r[j] in tail;
        }
      }
    }
  }

  /** After inserting a new name, it maps to its state and every other name to
      what it mapped to before. */
  lemma {:induction false} InsertLookup(es: seq<Entry>, e: Entry, n: string)
    requires Find(es, e.name) == |es|
    ensures Lookup(Insert(es, e), n) == if n == e.name then Some(e.state) else Lookup(es, n)
  {
    var r := Insert(es, e);
    if es == [] {
    } else if Before(e.name, es[0].name) {
      assert r[1..] == es;
    } else {
      assert r[1..] == Insert(es[1..], e);
      InsertLookup(es[1..], e, n);
    }
  }

  /** Inserting a new name registers it and keeps every other registration. */
  lemma InsertLookups(es: seq<Entry>, e: Entry, es': seq<Entry>)
    requires Find(es, e.name) == |es| && es' == Insert(es, e)
    ensures forall n :: Lookup(es', n) == if n == e.name then Some(e.state) else Lookup(es, n)
    ensures forall n :: KindOf(es, n) != InvalidComponent ==> KindOf(es', n) == KindOf(es, n)
  {
    forall n ensures Lookup(es', n) == if n == e.name then Some(e.state) else Lookup(es, n) {
      InsertLookup(es, e, n);
    }
  }

  // -- at_down ------------------------------------------------------------------

  /** The index of the first entry, in key order, whose actor is a, or |es|. */
  function FirstWith(es: seq<Entry>, a: Actor): (i: nat)
    ensures i <= |es|
    ensures i < |es| ==> es[i].state.actor == a
    ensures forall j :: 0 <= j < i ==> es[j].state.actor != a
  {
    if es == [] then 0
    else if es[0].state.actor == a then 0
    else 1 + FirstWith(es[1..], a)
  }

  /** The entries after at_down for actor a: the first entry holding a loses
      its actor; names, types and every other entry stay as they are. */
  function Downed(es: seq<Entry>, a: Actor): (r: seq<Entry>)
  {
    var i := FirstWith(es, a);
    if i < |es| then es[i := Entry(es[i].name, ActorState(InvalidActor, es[i].state.kind))] else es
  }

  /** at_down changes at most one entry, keeps every name and type, and leaves
      at most one fewer entry holding a. */
  lemma DownedKeeps(es: seq<Entry>, a: Actor)
    ensures |Downed(es, a)| == |es|
    ensures forall i :: 0 <= i < |es| ==>
              Downed(es, a)[i].name == es[i].name && Downed(es, a)[i].state.kind == es[i].state.kind
    ensures forall i :: 0 <= i < |es| && i != FirstWith(es, a) ==> Downed(es, a)[i] == es[i]
    ensures forall n :: KindOf(Downed(es, a), n) == KindOf(es, n)
  {
    SameNamesKinds(es, Downed(es, a));
  }

  /** Entries with the same names and types register every name with the same type. */
  lemma SameNamesKinds(es: seq<Entry>, es': seq<Entry>)
    requires |es| == |es'|
    requires forall i :: 0 <= i < |es| ==> es[i].name == es'[i].name && es[i].state.kind == es'[i].state.kind
    ensures forall n :: KindOf(es', n) == KindOf(es, n)
  {
    forall n ensures KindOf(es', n) == KindOf(es, n) {
      FindSameNames(es, es', n);
    }
  }

  // -- link ---------------------------------------------------------------------

  /** The component pairs link accepts: an importer feeding a receiver, or a
      receiver or search feeding an archive or an index. */
  predicate Permitted(src: Component, snk: Component)
  {
    || (src == Importer && snk == Receiver)
    || ((src == Receiver || src == Search) && (snk == Archive || snk == Index))
  }

  /** The verdict of link on the types of a registered source and sink that are
      not linked yet. */
  function LinkVerdict(src: Component, snk: Component, source: string, sink: string): (r: Reply)
    ensures r == Ok || r.Error?
  {
    match src
    case Importer => if snk != Receiver then Error(SinkNotReceiver(sink)) else Ok
    case Receiver => if snk == Archive || snk == Index then Ok else Error(SinkNotArchiveOrIndex(sink))
    case Search => if snk == Archive || snk == Index then Ok else Error(SinkNotArchiveOrIndex(sink))
    case _ => Error(InvalidSource(source))
  }

  /** link succeeds on new pairs exactly when the types are permitted. */
  lemma LinkVerdictOk(src: Component, snk: Component, source: string, sink: string)
    ensures LinkVerdict(src, snk, source, sink) == Ok <==> Permitted(src, snk)
    ensures !(src in {Importer, Receiver, Search}) ==> LinkVerdict(src, snk, source, sink) == Error(InvalidSource(source))
  {
  }

  /** Every link joins two registered components whose types link accepts,
      and no link is recorded twice. */
  ghost predicate LinksTyped(es: seq<Entry>, topology: multiset<(string, string)>)
  {
    forall l | l in topology :: topology[l] == 1 && Permitted(KindOf(es, l.0), KindOf(es, l.1))
  }

  /** Links stay typed when every type stays as it was. */
  lemma LinksKept(es: seq<Entry>, es': seq<Entry>, topology: multiset<(string, string)>)
    requires LinksTyped(es, topology)
    requires forall n :: KindOf(es, n) != InvalidComponent ==> KindOf(es', n) == KindOf(es, n)
    ensures LinksTyped(es', topology)
  {
    forall l | l in topology ensures Permitted(KindOf(es', l.0), KindOf(es', l.1)) {
      PermittedTyped(KindOf(es, l.0), KindOf(es, l.1));
    }
  }

  /** Only registered types can be linked. */
  lemma PermittedTyped(src: Component, snk: Component)
    requires Permitted(src, snk)
    ensures src != InvalidComponent && snk != InvalidComponent
  {
  }

  // -- the registry -------------------------------------------------------------

  class Tracker {
    /** actors_: name -> (actor, type), in key order. */
    var actors: seq<Entry>
    /** topology_: the (source, sink) links. */
    var topology: multiset<(string, string)>

    ghost predicate Valid()
      reads this
    {
      Sorted(actors) && LinksTyped(actors, topology)
    }

    /** A fresh registry: no components and no links. */
    constructor()
      ensures Valid() && actors == [] && topology == multiset{}
    {
      actors := [];
      topology := multiset{};
    }

    /** The put handler: registers actor a as component `name` of the given
        type, or re-instantiates a registered component whose actor is gone. */
    method Put(kind: string, a: Actor, name: string) returns (reply: Reply)
      requires Valid()
      modifies this
      ensures Valid() && topology == old(topology)
      ensures ParseComponent(kind) == InvalidComponent ==>
                reply == Error(InvalidType(kind)) && actors == old(actors)
      ensures ParseComponent(kind) != InvalidComponent && old(Lookup(actors, name)).None? ==>
                reply == Ok && actors == Insert(old(actors), Entry(name, ActorState(a, ParseComponent(kind))))
      ensures ParseComponent(kind) != InvalidComponent && old(Lookup(actors, name)).Some? ==>
                var st := old(Lookup(actors, name)).value;
                && (st.kind != ParseComponent(kind) ==> reply == Error(TypeMismatch(name)) && actors == old(actors))
                && (st.kind == ParseComponent(kind) && st.actor != InvalidActor ==>
                      reply == Error(DuplicateActor(name)) && actors == old(actors))
                && (st.kind == ParseComponent(kind) && st.actor == InvalidActor ==>
                      reply == Ok && actors == old(actors)[Find(old(actors), name) := Entry(name, ActorState(a, st.kind))])
      ensures reply == Ok ==> Lookup(actors, name) == Some(ActorState(a, ParseComponent(kind)))
      ensures forall n :: n != name ==> Lookup(actors, n) == old(Lookup(actors, n))
    {
      var c := ParseComponent(kind);
      if c == InvalidComponent {
        return Error(InvalidType(kind));
      }
      var i := Find(actors, name);
      if i == |actors| {
        Register(name, ActorState(a, c));
      } else {
        if actors[i].state.kind != c {
          return Error(TypeMismatch(name));
        }
        if actors[i].state.actor != InvalidActor {
          return Error(DuplicateActor(name));
        }
        Reinstate(i, a);
      }
      return Ok;
    }

    /** actors_.emplace of a name not yet registered. */
    method Register(name: string, st: ActorState)
      requires Valid() && Find(actors, name) == |actors| && st.kind != InvalidComponent
      modifies this
      ensures Valid() && topology == old(topology)
      ensures actors == Insert(old(actors), Entry(name, st))
      ensures forall n :: Lookup(actors, n) == if n == name then Some(st) else old(Lookup(actors, n))
    {
      var e := Entry(name, st);
      var es' := Insert(actors, e);
      InsertSorted(actors, e);
      InsertLookups(actors, e, es');
      LinksKept(actors, es', topology);
      actors := es';
    }

    /** Gives the registered component at index i, whose actor is gone, the actor a. */
    method Reinstate(i: nat, a: Actor)
      requires Valid() && i < |actors|
      modifies this
      ensures Valid() && topology == old(topology)
      ensures actors == old(actors)[i := Entry(old(actors)[i].name, ActorState(a, old(actors)[i].state.kind))]
      ensures forall n :: Lookup(actors, n) ==
                if n == old(actors)[i].name then Some(ActorState(a, old(actors)[i].state.kind))
                else old(Lookup(actors, n))
    {
      var name := actors[i].name;
      var st := ActorState(a, actors[i].state.kind);
      var es' := actors[i := Entry(name, st)];
      FindSorted(actors, i);
      forall n ensures Lookup(es', n) == if n == name then Some(st) else Lookup(actors, n) {
        UpdateLookup(actors, name, st, n);
      }
      LinksKept(actors, es', topology);
      actors := es';
    }

    /** The get handler: the actor registered under a name, possibly
        invalid_actor, or an error for an unknown name. Nothing changes. */
    method Get(name: string) returns (reply: Reply)
      ensures Lookup(actors, name).Some? ==> reply == Found(Lookup(actors, name).value.actor)
      ensures Lookup(actors, name).None? ==> reply == Error(UnknownActor(name))
    {
      var i := Find(actors, name);
      if i < |actors| {
        return Found(actors[i].state.actor);
      }
      return Error(UnknownActor(name));
    }

    /** The link handler: records a link from source to sink when both are
        registered and their types fit; an existing link is acknowledged
        without being recorded again. */
    method Link(source: string, sink: string) returns (reply: Reply)
      requires Valid()
      modifies this
      ensures Valid() && actors == old(actors)
      ensures Lookup(actors, source).None? ==> reply == Error(UnknownSource(source)) && topology == old(topology)
      ensures Lookup(actors, source).Some? && Lookup(actors, sink).None? ==>
                reply == Error(UnknownSink(sink)) && topology == old(topology)
      ensures Lookup(actors, source).Some? && Lookup(actors, sink).Some? && (source, sink) in old(topology) ==>
                reply == Ok && topology == old(topology)
      ensures Lookup(actors, source).Some? && Lookup(actors, sink).Some? && (source, sink) !in old(topology) ==>
                reply == LinkVerdict(KindOf(actors, source), KindOf(actors, sink), source, sink)
                && topology == if reply == Ok then old(topology) + multiset{(source, sink)} else old(topology)
    {
      var i := Find(actors, source);
      if i == |actors| {
        return Error(UnknownSource(source));
      }
      var j := Find(actors, sink);
      if j == |actors| {
        return Error(UnknownSink(sink));
      }
      if (source, sink) in topology {
        return Ok;
      }
      reply := LinkVerdict(actors[i].state.kind, actors[j].state.kind, source, sink);
      if reply == Ok {
        AddLink(source, sink);
      }
    }

    /** topology_.emplace(source, sink) of a new, permitted link. */
    method AddLink(source: string, sink: string)
      requires Valid() && (source, sink) !in topology && Permitted(KindOf(actors, source), KindOf(actors, sink))
      modifies this
      ensures Valid() && actors == old(actors)
      ensures topology == old(topology) + multiset{(source, sink)}
    {
      topology := topology + multiset{(source, sink)};
    }

    /** at_down: the first component, in key order, whose actor went down
        keeps its name and type but loses its actor. */
    method AtDown(source: Actor)
      requires Valid()
      modifies this
      ensures Valid() && topology == old(topology)
      ensures actors == Downed(old(actors), source)
    {
      DownedKeeps(actors, source);
      LinksKept(actors, Downed(actors, source), topology);
      var i := 0;
      while i < |actors|
        invariant i <= |actors| && actors == old(actors)
        invariant forall j :: 0 <= j < i ==> actors[j].state.actor != source
        decreases |actors| - i
      {
        if actors[i].state.actor == source {
          actors := actors[i := Entry(actors[i].name, ActorState(InvalidActor, actors[i].state.kind))];
          return;
        }
        i := i + 1;
      }
    }
  }
}
