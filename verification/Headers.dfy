/** Response builders on the shared object (pkg/cel/libs/http/impl.go) and the headers the
    handler writes (writeResponse in pkg/httpauth/handlers.go). */
module Headers {
  import opened Cel
  import opened Options
  import opened Order

  // The Go object behind a response value: every builder changes it and returns it.
  class Response {
    var status: int
    var headers: Option<map<string, seq<string>>>
    var body: string

    function Content(): Resp
      reads this
    {
      Resp(status, headers, body)
    }

    constructor ()
      ensures Content() == FRESH_RESPONSE && status == 0 && headers == None && body == ""
    {
      status, headers, body := 0, None, "";
    }

    method WithStatus(n: int) returns (r: Response)
      modifies this
      ensures r == this && Content() == PutStatus(n).On(old(Content()))
      ensures status == n && headers == old(headers) && body == old(body)
    {
      status := n;
      r := this;
    }

    method WithHeader(k: string, v: string) returns (r: Response)
      modifies this
      ensures r == this && Content() == PutHeader(k, v).On(old(Content()))
      ensures status == old(status) && body == old(body) && headers.Some?
      ensures var before := old(if headers.Some? then headers.value else map[]);
        headers.value == before[k := (if k in before then before[k] else []) + [v]]
    {
      if headers.None? { headers := Some(map[]); }
      var inner := headers.value;
      var before := if k in inner then inner[k] else [];
      headers := Some(inner[k := before + [v]]);
      r := this;
    }

    method WithBody(b: string) returns (r: Response)
      modifies this
      ensures r == this && Content() == PutBody(b).On(old(Content()))
      ensures status == old(status) && headers == old(headers) && body == b
    {
      body := b;
      r := this;
    }
  }

  // A response after a chain of builder calls on a fresh one.
  function Built(edits: seq<Edit>): Resp {
    if edits == [] then FRESH_RESPONSE else edits[|edits| - 1].On(Built(edits[..|edits| - 1]))
  }

  type Inner = map<string, seq<string>>

  function InnerOf(r: Resp): Inner { if r.headers.Some? then r.headers.value else map[] }

  // The value of the last withHeader call for k, if there is one.
  ghost function LastAdded(edits: seq<Edit>, k: string): Option<string> {
    if edits == [] then None
    else
      var e := edits[|edits| - 1];
      if e.PutHeader? && e.k == k then Some(e.v) else LastAdded(edits[..|edits| - 1], k)
  }

  lemma {:induction false} ChainKeepsLast(edits: seq<Edit>, k: string)
    ensures var inner := InnerOf(Built(edits));
      if k in inner then inner[k] != [] && LastAdded(edits, k) == Some(inner[k][|inner[k]| - 1])
      else LastAdded(edits, k) == None
    decreases |edits|
  {
    if edits != [] { ChainKeepsLast(edits[..|edits| - 1], k); }
  }

  // The status and the body are those of the last call for them.
  ghost function LastStatus(edits: seq<Edit>): int {
    if edits == [] then 0
    else
      var e := edits[|edits| - 1];
      if e.PutStatus? then e.n else LastStatus(edits[..|edits| - 1])
  }

  ghost function LastBody(edits: seq<Edit>): string {
    if edits == [] then ""
    else
      var e := edits[|edits| - 1];
      if e.PutBody? then e.b else LastBody(edits[..|edits| - 1])
  }

  lemma {:induction false} ChainStatusAndBody(edits: seq<Edit>)
    ensures Built(edits).status == LastStatus(edits) && Built(edits).body == LastBody(edits)
    decreases |edits|
  {
    if edits != [] { ChainStatusAndBody(edits[..|edits| - 1]); }
  }

  // ---- Writing -------------------------------------------------------------------------

  // Header().Set canonicalises the key and replaces what was there. Values are set one after
  // the other, so a key leaves its last one.
  function SetAll(
    out: map<string, string>, canon: string -> string, k: string, vals: seq<string>): map<string, string> {
    if vals == [] then out else out[canon(k) := vals[|vals| - 1]]
  }

  // The headers written when the map is ranged in the given order.
  function WrittenIn(order: seq<string>, inner: Inner, canon: string -> string): map<string, string>
    requires forall k :: k in order ==> k in inner
  {
    if order == [] then map[]
    else
      var k := order[|order| - 1];
      SetAll(WrittenIn(order[..|order| - 1], inner, canon), canon, k, inner[k])
  }

  ghost predicate RangeOrder(order: seq<string>, inner: Inner) {
    Distinct(order) && forall k :: k in order <==> k in inner
  }

  method WriteHeaders(r: Resp, canon: string -> string) returns (out: map<string, string>, order: seq<string>)
    ensures RangeOrder(order, InnerOf(r)) && out == WrittenIn(order, InnerOf(r), canon)
  {
    out, order := map[], [];
    var inner := InnerOf(r);
    var keys := inner.Keys;
    while keys != {}
      invariant keys <= inner.Keys && Distinct(order)
      invariant forall k :: k in order <==> k in inner && k !in keys
      invariant out == WrittenIn(order, inner, canon)
      decreases keys
    {
      var k :| k in keys;
      ghost var before := out;
      for i := 0 to |inner[k]|
        invariant out == SetAll(before, canon, k, inner[k][..i])
      {
        out := out[canon(k) := inner[k][i]];
      }
      assert inner[k][..|inner[k]|] == inner[k];
      assert (order + [k])[..|order|] == order;
      order, keys := order + [k], keys - {k};
    }
  }

  // Two keys that are one field name to HTTP but end in different values.
  ghost predicate Clash(inner: Inner, canon: string -> string, j: string, k: string) {
    && j in inner && k in inner && inner[j] != [] && inner[k] != [] && canon(j) == canon(k)
    && inner[j][|inner[j]| - 1] != inner[k][|inner[k]| - 1]
  }

  ghost predicate Wrote(inner: Inner, canon: string -> string, k: string, c: string, v: string) {
    k in inner && inner[k] != [] && canon(k) == c && v == inner[k][|inner[k]| - 1]
  }

  lemma {:induction false} WrittenFrom(order: seq<string>, inner: Inner, canon: string -> string, c: string)
    requires forall k :: k in order ==> k in inner
    ensures var out := WrittenIn(order, inner, canon);
      && (c in out ==> exists k :: k in order && Wrote(inner, canon, k, c, out[c]))
      && (forall k :: k in order && inner[k] != [] && canon(k) == c ==> c in out)
    decreases |order|
  {
    if order != [] {
      var n := |order| - 1;
      WrittenFrom(order[..n], inner, canon, c);
      assert order == order[..n] + [order[n]];
      var out, k := WrittenIn(order, inner, canon), order[n];
      if c in out && inner[k] != [] && canon(k) == c {
        assert Wrote(inner, canon, k, c, out[c]);
      }
    }
  }

  lemma OrderEndingIn(inner: Inner, k: string) returns (order: seq<string>)
    requires k in inner
    ensures RangeOrder(order, inner) && order != [] && order[|order| - 1] == k
  {
    order := Enumerate(inner.Keys - {k});
    order := order + [k];
  }

  lemma {:induction false} Enumerate(keys: set<string>) returns (order: seq<string>)
    ensures Distinct(order) && forall k :: k in order <==> k in keys
    decreases keys
  {
    if keys == {} {
      order := [];
    } else {
      var k :| k in keys;
      order := Enumerate(keys - {k});
      order := order + [k];
    }
  }

  // The written headers are independent of the order of iteration exactly when no two keys
  // clash.
  lemma WriteOrderMatters(inner: Inner, canon: string -> string)
    ensures (forall o1, o2 :: RangeOrder(o1, inner) && RangeOrder(o2, inner) ==>
        WrittenIn(o1, inner, canon) == WrittenIn(o2, inner, canon))
      <==> !exists j, k :: Clash(inner, canon, j, k)
  {
    if j, k :| Clash(inner, canon, j, k) {
      var o1 := OrderEndingIn(inner, j);
      var o2 := OrderEndingIn(inner, k);
      assert WrittenIn(o1, inner, canon)[canon(j)] == inner[j][|inner[j]| - 1];
      assert WrittenIn(o2, inner, canon)[canon(k)] == inner[k][|inner[k]| - 1];
    } else {
      forall o1, o2 | RangeOrder(o1, inner) && RangeOrder(o2, inner)
        ensures WrittenIn(o1, inner, canon) == WrittenIn(o2, inner, canon)
      {
        SameEntries(o1, o2, inner, canon);
        SameEntries(o2, o1, inner, canon);
        assert WrittenIn(o1, inner, canon).Keys == WrittenIn(o2, inner, canon).Keys;
      }
    }
  }

  lemma SameEntries(o1: seq<string>, o2: seq<string>, inner: Inner, canon: string -> string)
    requires RangeOrder(o1, inner) && RangeOrder(o2, inner)
    requires !exists j, k :: Clash(inner, canon, j, k)
    ensures forall c :: c in WrittenIn(o1, inner, canon) ==>
      c in WrittenIn(o2, inner, canon) && WrittenIn(o2, inner, canon)[c] == WrittenIn(o1, inner, canon)[c]
  {
    forall c | c in WrittenIn(o1, inner, canon)
      ensures c in WrittenIn(o2, inner, canon) && WrittenIn(o2, inner, canon)[c] == WrittenIn(o1, inner, canon)[c]
    {
      WrittenFrom(o1, inner, canon, c);
      WrittenFrom(o2, inner, canon, c);
      var j :| j in o1 && Wrote(inner, canon, j, c, WrittenIn(o1, inner, canon)[c]);
      var k :| k in o2 && Wrote(inner, canon, k, c, WrittenIn(o2, inner, canon)[c]);
      assert !Clash(inner, canon, j, k);
    }
  }

  // Chains whose keys have pairwise different canonical forms: whatever the order, the
  // header written under a key's canonical form is the last value added for that key.
  lemma ChainHeaders(edits: seq<Edit>, canon: string -> string, order: seq<string>, k: string)
    requires RangeOrder(order, InnerOf(Built(edits)))
    requires forall i, j :: i in order && j in order && canon(i) == canon(j) ==> i == j
    ensures var out := WrittenIn(order, InnerOf(Built(edits)), canon);
      LastAdded(edits, k).Some? ==> canon(k) in out && out[canon(k)] == LastAdded(edits, k).value
  {
    ChainKeepsLast(edits, k);
    var inner := InnerOf(Built(edits));
    WrittenFrom(order, inner, canon, canon(k));
  }
}
