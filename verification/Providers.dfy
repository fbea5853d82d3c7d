/** Composite providers (pkg/engine/providers/composite.go) and their nesting in the
    standalone server (pkg/commands/serve/standalone-authz/command.go). */
module Providers {
  import opened Cel
  import opened Compiler
  import opened Engine
  import opened Handler

  type Listing = Try<seq<CompiledPolicy>>

  datatype Provider = Source(listing: Listing) | Composite(children: seq<Provider>)

  // The sources of a provider, left to right.
  ghost function Sources(p: Provider): seq<Listing>
    decreases p, 0
  {
    match p
    case Source(listing) => [listing]
    case Composite(children) => SourcesOf(children)
  }

  ghost function SourcesOf(ps: seq<Provider>): seq<Listing>
    decreases ps, 0
  {
    if ps == [] then [] else Sources(ps[0]) + SourcesOf(ps[1..])
  }

  // All listings one after the other, or the first error.
  ghost function Join(ls: seq<Listing>): Listing {
    if ls == [] then Ok([])
    else if ls[0].Error? then ls[0]
    else if Join(ls[1..]).Error? then Join(ls[1..])
    else Ok(ls[0].value + Join(ls[1..]).value)
  }

  lemma {:induction false} JoinAppend(a: seq<Listing>, b: seq<Listing>)
    ensures Join(a + b) ==
      if Join(a).Error? then Join(a)
      else if Join(b).Error? then Join(b)
      else Ok(Join(a).value + Join(b).value)
    decreases |a|
  {
    if a == [] {
      assert a + b == b;
      if Join(b).Ok? { assert [] + Join(b).value == Join(b).value; }
    } else {
      assert (a + b)[1..] == a[1..] + b;
      JoinAppend(a[1..], b);
      if Join(a).Ok? && Join(b).Ok? {
        assert a[0].value + (Join(a[1..]).value + Join(b).value) == Join(a).value + Join(b).value;
      }
    }
  }

  lemma {:induction false} SourcesAppend(a: seq<Provider>, p: Provider)
    ensures SourcesOf(a + [p]) == SourcesOf(a) + Sources(p)
    decreases |a|
  {
    if a == [] {
      assert a + [p] == [p] && SourcesOf([p]) == Sources(p) + SourcesOf([p][1..]);
    } else {
      assert (a + [p])[1..] == a[1..] + [p];
      SourcesAppend(a[1..], p);
    }
  }

  method CompiledPolicies(p: Provider) returns (r: Listing)
    ensures r == Join(Sources(p))
    ensures p.Source? ==> r == p.listing
    decreases p
  {
    match p {
      case Source(listing) =>
        if listing.Ok? { assert listing.value + [] == listing.value; }
        return listing;
      case Composite(children) =>
        var out: seq<CompiledPolicy> := [];
        for i := 0 to |children|
          invariant Join(SourcesOf(children[..i])) == Ok(out)
        {
          var c := CompiledPolicies(children[i]);
          assert children[..i + 1] == children[..i] + [children[i]];
          SourcesAppend(children[..i], children[i]);
          JoinAppend(SourcesOf(children[..i]), Sources(children[i]));
          if c.Error? {
            FirstErrorStands(children, i + 1);
            return c;
          }
          out := out + c.value;
        }
        assert children[..|children|] == children;
        r := Ok(out);
    }
  }

  lemma {:induction false} FirstErrorStands(ps: seq<Provider>, n: nat)
    requires n <= |ps| && Join(SourcesOf(ps[..n])).Error?
    ensures Join(SourcesOf(ps)) == Join(SourcesOf(ps[..n]))
    decreases |ps| - n
  {
    if n == |ps| {
      assert ps[..n] == ps;
    } else {
      assert ps[..n + 1] == ps[..n] + [ps[n]];
      SourcesAppend(ps[..n], ps[n]);
      JoinAppend(SourcesOf(ps[..n]), Sources(ps[n]));
      FirstErrorStands(ps, n + 1);
    }
  }

  // Where the policies of source i begin.
  ghost function Offset(ls: seq<seq<CompiledPolicy>>, i: nat): nat
    requires i <= |ls|
  {
    if i == 0 then 0 else Offset(ls, i - 1) + |ls[i - 1]|
  }

  ghost function AllOk(ls: seq<seq<CompiledPolicy>>): seq<Provider> {
    seq(|ls|, i requires 0 <= i < |ls| => Source(Ok(ls[i])))
  }

  ghost predicate LaidOut(ls: seq<seq<CompiledPolicy>>, all: seq<CompiledPolicy>) {
    && |all| == Offset(ls, |ls|)
    && forall i: nat, j: nat :: i < |ls| && j < |ls[i]| ==> StandsAt(ls[i][j], all, Offset(ls, i) + j)
  }

  ghost predicate StandsAt(p: CompiledPolicy, all: seq<CompiledPolicy>, k: nat) { k < |all| && all[k] == p }

  // A composite over sources that all succeed lists policy j of source i at its place, and nothing
  // else.
  lemma {:induction false} ListsByIndex(ls: seq<seq<CompiledPolicy>>)
    ensures var all := Join(Sources(Composite(AllOk(ls))));
      all.Ok? && LaidOut(ls, all.value)
    decreases |ls|
  {
    if ls != [] {
      var n := |ls| - 1;
      var front := ls[..n];
      ListsByIndex(front);
      assert AllOk(ls) == AllOk(front) + [Source(Ok(ls[n]))];
      SourcesAppend(AllOk(front), Source(Ok(ls[n])));
      JoinAppend(SourcesOf(AllOk(front)), [Ok(ls[n])]);
      assert Join([Ok(ls[n])]) == Ok(ls[n]) by { assert ls[n] + [] == ls[n]; }
      forall i: nat | i <= n ensures Offset(ls, i) == Offset(front, i) { OffsetOfFront(ls, i); }
      var before, all := Join(SourcesOf(AllOk(front))), Join(SourcesOf(AllOk(ls)));
      assert before == Join(Sources(Composite(AllOk(front))));
      assert all == Join(Sources(Composite(AllOk(ls)))) && all == Ok(before.value + ls[n]);
      assert Offset(ls, n) == |before.value|;
      forall i: nat, j: nat | i < |ls| && j < |ls[i]|
        ensures StandsAt(ls[i][j], all.value, Offset(ls, i) + j)
      {
        if i < n {
          assert front[i][j] == ls[i][j] && StandsAt(front[i][j], before.value, Offset(front, i) + j);
        }
      }
    }
  }

  lemma {:induction false} OffsetOfFront(ls: seq<seq<CompiledPolicy>>, i: nat)
    requires i < |ls|
    ensures Offset(ls, i) == Offset(ls[..|ls| - 1], i)
    decreases i
  {
    if i > 0 { OffsetOfFront(ls, i - 1); }
  }

  // The first source that fails is what a composite of sources yields.
  lemma FirstFailure(ls: seq<Listing>, i: nat)
    requires i < |ls| && ls[i].Error? && forall k :: 0 <= k < i ==> ls[k].Ok?
    ensures Join(ls) == ls[i]
    decreases i
  {
    if i > 0 { FirstFailure(ls[1..], i - 1); }
  }

  // The standalone server's nesting: external policies decide first, then cluster policies. An
  // error of an external provider hides every policy, one of the cluster provider the external
  // policies too.
  lemma ExternalsFirst(external: seq<Provider>, cluster: Provider, q: Request)
    ensures var all := Join(Sources(Composite([Composite(external), cluster])));
      var es, cs := Join(SourcesOf(external)), Join(Sources(cluster));
      && (es.Error? ==> all == es)
      && (es.Ok? && cs.Error? ==> all == cs)
      && (es.Ok? && cs.Ok? ==>
          && all.Ok?
          && Decide(all.value, q) ==
             if Decide(es.value, q) != NoDecision then Decide(es.value, q) else Decide(cs.value, q))
  {
    hide OutcomeOf;
    SourcesAppend([Composite(external)], cluster);
    assert [Composite(external)] + [cluster] == [Composite(external), cluster];
    assert SourcesOf([Composite(external)]) == Sources(Composite(external)) + SourcesOf([Composite(external)][1..]);
    assert SourcesOf([Composite(external)]) == SourcesOf(external);
    JoinAppend(SourcesOf(external), Sources(cluster));
    var es, cs := Join(SourcesOf(external)), Join(Sources(cluster));
    if es.Ok? && cs.Ok? { DecideAppend(es.value, cs.value, q); }
  }
}
