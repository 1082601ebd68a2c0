/** The laws assumed of the crypto and encoding libraries can hold together. */
module LawfulPrimitives {
  import opened Options
  import opened Bytes
  import opened BlockModes
  import opened Encryption

  /** Number of leading ones. */
  function Ones(s: bytes): (n: nat)
    ensures n <= |s|
  {
    if s == [] || s[0] != 1 then 0 else 1 + Ones(s[1..])
  }

  /** One byte string in front of another: its length in unary, a zero, and its bytes. */
  function Join(a: bytes, rest: bytes): bytes {
    Repeat(1, |a|) + [0] + a + rest
  }

  function Split(s: bytes): Option<(bytes, bytes)> {
    var n := Ones(s);
    if 2 * n + 1 > |s| then None else Some((s[n + 1..2 * n + 1], s[2 * n + 1..]))
  }

  lemma {:induction false} OnesOf(n: nat, rest: bytes)
    ensures Ones(Repeat(1, n) + [0] + rest) == n
  {
    var s := Repeat(1, n) + [0] + rest;
    if n > 0 {
      assert s[1..] == Repeat(1, n - 1) + [0] + rest;
      OnesOf(n - 1, rest);
    }
  }

  lemma SplitJoin(a: bytes, rest: bytes)
    ensures Split(Join(a, rest)) == Some((a, rest))
  {
    var s, n := Join(a, rest), |a|;
    assert s == Repeat(1, n) + [0] + (a + rest);
    OnesOf(n, a + rest);
    assert s[n + 1..2 * n + 1] == a && s[2 * n + 1..] == rest;
  }

  function Render(e: Envelope): bytes {
    Join(e.iv, Join(e.value, Join(e.mac, e.tag)))
  }

  function Parse(s: bytes): Option<Envelope> {
    match Split(s)
    case None => None
    case Some((iv, s1)) =>
      match Split(s1)
      case None => None
      case Some((value, s2)) =>
        match Split(s2)
        case None => None
        case Some((mac, tag)) => Some(Envelope(iv, value, mac, tag))
  }

  function Toy(): Primitives {
    Primitives(
      x => x, x => Some(x), x => x, x => Some(x), Render, Parse,
      key => Block(b => b, b => b),
      (key, nonce, x) => x + Repeat(0, TAG_SIZE),
      (key, nonce, s) => if |s| < TAG_SIZE then None else Some(s[..|s| - TAG_SIZE]),
      (key, x) => Repeat(0, 32))
  }

  lemma LawsAreConsistent()
    ensures Lawful(Toy())
  {
    hide Join, Split;
    forall e: Envelope ensures Parse(Render(e)) == Some(e) {
      SplitJoin(e.iv, Join(e.value, Join(e.mac, e.tag)));
      SplitJoin(e.value, Join(e.mac, e.tag));
      SplitJoin(e.mac, e.tag);
    }
    forall x: bytes ensures (x + Repeat(0, TAG_SIZE))[..|x + Repeat(0, TAG_SIZE)| - TAG_SIZE] == x {
    }
  }
}
