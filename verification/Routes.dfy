/** What the router guarantees to the schema store: service ids that come out of a path are free of "/". */
module Routes {
  import opened Options
  import opened Etcd
  import opened Runs
  import SR = SchemaRuns
  import P = Paths
  import U = UrlPattern

  /** The id was captured by some route from some path. */
  ghost predicate Routed(id: string) {
    exists pattern, path :: U.Captures(pattern, path, 0, 0).Some? && id in U.Captures(pattern, path, 0, 0).value
  }

  lemma RoutedIsPlain(id: string)
    requires Routed(id)
    ensures P.Plain(id)
  {
    var pattern, path :| U.Captures(pattern, path, 0, 0).Some? && id in U.Captures(pattern, path, 0, 0).value;
    U.CapturedIsFree(pattern, path);
  }

  /** A schema write as the server makes it: a service id from the path, and schema ids that the validators let pass. */
  ghost predicate IsRequest(a: Action) {
    match a
    case PutSchema(t, s, x, _) => P.IsTenant(t) && Routed(s) && P.Plain(x)
    case PutSchemas(t, s, ids, _) => P.IsTenant(t) && Routed(s) && forall x :: x in ids ==> P.Plain(x)
    case _ => true
  }

  /** Its references are read back under their own tenant. */
  lemma RequestsAreReadable(a: Action)
    requires IsRequest(a)
    ensures SR.PutsReadable(a)
  {
    match a
    case PutSchema(t, s, x, _) =>
      RoutedIsPlain(s);
      SR.PlainIsReadable(t, s, x);
    case PutSchemas(t, s, ids, _) =>
      RoutedIsPlain(s);
      forall x | x in ids ensures P.ReadTenant(SchemaRef(t, s, x)) == t {
        SR.PlainIsReadable(t, s, x);
      }
    case _ =>
  }

  /** So over every atomic run of requests the store is the plain map, and the collectors are invisible. */
  lemma SchemasRefineForRequests(states: seq<State>, events: seq<Event>, source: string -> string, n: nat)
    requires IsRun(states, events) && IsAtomic(events) && n < |states|
    requires forall i :: 0 <= i < n ==>
               var a := events[i].action; SR.CarriesSource(a, source) && IsRequest(a) && !a.ModifySchemas?
    ensures SR.Listed(states[n]) && SR.RefinesAt(states, events, n, source)
  {
    forall i | 0 <= i < n ensures SR.PutsReadable(events[i].action) {
      RequestsAreReadable(events[i].action);
    }
    SR.SchemasRefineInEveryAtomicRun(states, events, source, n);
  }
}
