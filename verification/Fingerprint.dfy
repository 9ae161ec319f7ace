/**
 * The filter fingerprint a mailbox cursor carries: a digest over length-prefixed fields, so that no two filter sets can
 * be mistaken for one another.
 */
module Fingerprint {
  import opened Wrappers

  const CURSOR_VERSION := "3"

  datatype Filters = Filters(
    sender: string, senderDomain: string, recipient: string, direction: string, after: Option<int>, before: Option<int>)

  function Digit(d: nat): char
    requires d < 10
  {
    "0123456789"[d]
  }

  /** strconv.Itoa of a length. */
  function Itoa(n: nat): (s: string)
    ensures s != []
    ensures ':' !in s
  {
    if n < 10 then [Digit(n)] else Itoa(n / 10) + [Digit(n % 10)]
  }

  lemma {:induction false} ItoaInjective(a: nat, b: nat)
    requires Itoa(a) == Itoa(b)
    ensures a == b
  {
    assert a < 10 <==> |Itoa(a)| == 1;
    assert b < 10 <==> |Itoa(b)| == 1;
    if a >= 10 {
      var s, t := Itoa(a / 10), Itoa(b / 10);
      assert s == Itoa(a)[..|Itoa(a)| - 1] && t == Itoa(b)[..|Itoa(b)| - 1];
      assert Itoa(a)[|s|] == Itoa(b)[|t|];
      ItoaInjective(a / 10, b / 10);
    }
  }

  /** One field: its length, a colon, its bytes. */
  function Field(s: string): string { Itoa(|s|) + ":" + s }

  function Fields(xs: seq<string>): string {
    if xs == [] then [] else Field(xs[0]) + Fields(xs[1..])
  }

  lemma FirstColon(a: string, x: string)
    requires ':' !in a
    ensures var s := a + ":" + x; s[|a|] == ':' && forall i :: 0 <= i < |a| ==> s[i] != ':'
  {
  }

  /** The first colon ends the length, whatever the field holds. */
  lemma LengthsAgree(a: string, x: string, b: string, y: string)
    requires ':' !in a && ':' !in b && a + ":" + x == b + ":" + y
    ensures a == b && x == y
  {
    FirstColon(a, x);
    FirstColon(b, y);
    var s := a + ":" + x;
    assert |a| == |b|;
    assert a == s[..|a|] && b == s[..|b|];
    assert x == s[|a| + 1..] && y == s[|b| + 1..];
  }

  lemma {:induction false} FieldsInjective(xs: seq<string>, ys: seq<string>)
    requires |xs| == |ys| && Fields(xs) == Fields(ys)
    ensures xs == ys
  {
    if xs != [] {
      var x, y := xs[0], ys[0];
      var restX, restY := Fields(xs[1..]), Fields(ys[1..]);
      assert Fields(xs) == Itoa(|x|) + ":" + (x + restX);
      assert Fields(ys) == Itoa(|y|) + ":" + (y + restY);
      LengthsAgree(Itoa(|x|), x + restX, Itoa(|y|), y + restY);
      ItoaInjective(|x|, |y|);
      assert x == (x + restX)[..|x|] && y == (y + restY)[..|y|];
      assert restX == (x + restX)[|x|..] && restY == (y + restY)[|y|..];
      FieldsInjective(xs[1..], ys[1..]);
      assert xs == [x] + xs[1..] && ys == [y] + ys[1..];
    }
  }

  /** How a time is printed; an unset bound prints as nothing. */
  type TimeText = int -> string
  type Digest = string -> string

  function BoundText(t: Option<int>, text: TimeText): string { if t.None? then "" else text(t.value) }

  function FieldsOf(f: Filters, text: TimeText): seq<string> {
    ["v" + CURSOR_VERSION, f.sender, f.senderDomain, f.recipient, f.direction, BoundText(f.after, text),
     BoundText(f.before, text)]
  }

  /** Filters.fingerprint. */
  method FingerprintOf(f: Filters, text: TimeText, digest: Digest) returns (r: string)
    ensures r == Print(f, text, digest)
  {
    var fields := FieldsOf(f, text);
    var written := "";
    for i := 0 to |fields|
      invariant Fields(fields) == written + Fields(fields[i..])
    {
      written := written + Field(fields[i]);
      assert fields[i..][1..] == fields[i + 1..];
    }
    assert fields[|fields|..] == [];
    assert written == Fields(fields);
    r := digest(written);
  }

  function Print(f: Filters, text: TimeText, digest: Digest): string { digest(Fields(FieldsOf(f, text))) }

  /** Printed times are never empty and never alike. */
  ghost predicate TimesPrint(text: TimeText) {
    forall t: int, u: int :: |text(t)| > 0 && (text(t) == text(u) ==> t == u)
  }

  ghost predicate Collisionless(digest: Digest) { forall s, t :: digest(s) == digest(t) ==> s == t }

  ghost predicate Faithful(text: TimeText, digest: Digest) { TimesPrint(text) && Collisionless(digest) }

  lemma BoundTextInjective(t: Option<int>, u: Option<int>, text: TimeText)
    requires TimesPrint(text) && BoundText(t, text) == BoundText(u, text)
    ensures t == u
  {
    if t.Some? {
      var x := t.value;
      assert |text(x)| > 0 && text(x) == text(x);
    }
    if u.Some? {
      var y := u.value;
      assert |text(y)| > 0 && text(y) == text(y);
    }
  }

  /** Equal fingerprints mean equal filters, field by field, for a digest without collisions. */
  lemma FingerprintIdentifies(f: Filters, g: Filters, text: TimeText, digest: Digest)
    requires Faithful(text, digest) && Print(f, text, digest) == Print(g, text, digest)
    ensures f == g
  {
    var xs, ys := FieldsOf(f, text), FieldsOf(g, text);
    FieldsInjective(xs, ys);
    assert xs[1] == ys[1] && xs[2] == ys[2] && xs[3] == ys[3] && xs[4] == ys[4];
    assert xs[5] == ys[5] && xs[6] == ys[6];
    BoundTextInjective(f.after, g.after, text);
    BoundTextInjective(f.before, g.before, text);
  }
}
