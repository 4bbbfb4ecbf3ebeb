/**
 What serialize writes for any call (examples/ircpeer/ircpeer.cpp).
 */
module IrcWire {
  import opened ByteArray
  import opened IrcName
  import opened IrcLine
  import opened IrcFraming
  import opened IrcRoundTrip

  predicate VariantWithoutEol(v: Variant) {
    match v
    case Invalid => true
    case Text(ba) => NoEol(ba)
    case Sender(name) => NameWithoutEol(name)
  }

  lemma {:induction false} ParamsEnd(ps: seq<Variant>) returns (body: Bytes)
    requires forall i :: 0 <= i < |ps| ==> VariantWithoutEol(ps[i])
    ensures SerializeParams(ps) == body + "\r\n" && NoEol(body)
  {
    if ps == [] || !ps[0].Text? {
      body := "";
    } else if NeedsColon(ps[0].bytes) {
      body := " :" + ps[0].bytes;
      assert VariantWithoutEol(ps[0]);
    } else {
      var more := ParamsEnd(ps[1..]);
      assert VariantWithoutEol(ps[0]);
      body := " " + ps[0].bytes + more;
    }
  }

  /** Whatever a call without line ends holds, its line has one CR and one LF, which are its last bytes. */
  lemma SerializedLineEnd(fn: Bytes, args: seq<Variant>) returns (body: Bytes)
    requires |args| == 8 && fn != "raw" && NoEol(fn)
    requires forall i :: 0 <= i < |args| ==> VariantWithoutEol(args[i])
    ensures SerializeCall(fn, args) == body + "\r\n" && NoEol(body)
  {
    var params := ParamsEnd(args[1..]);
    var front := SerializePrefix(args[0]);
    assert VariantWithoutEol(args[0]);
    if args[0].Sender? {
      AssembleKeeps(args[0].name, CR);
      AssembleKeeps(args[0].name, LF);
    }
    assert NoEol(front);
    body := front + fn + params;
    hide SerializePrefix, SerializeParams;
    Assoc(front + fn, params, "\r\n");
  }

  /** A parameter after which serialize writes nothing more. */
  predicate IsLast(p: Variant) {
    !p.Text? || NeedsColon(p.bytes)
  }

  lemma {:induction false} ParamsAfterLast(ps: seq<Variant>, qs: seq<Variant>, k: nat)
    requires k < |ps| && k < |qs| && IsLast(ps[k])
    requires forall i :: 0 <= i <= k ==> ps[i] == qs[i]
    ensures SerializeParams(ps) == SerializeParams(qs)
  {
    if !IsLast(ps[0]) {
      ParamsAfterLast(ps[1..], qs[1..], k - 1);
    }
  }

  /** The line does not depend on anything after the first invalid, space-containing or ':'-leading
      parameter. */
  lemma LaterArgsDoNotMatter(fn: Bytes, args: seq<Variant>, others: seq<Variant>, k: nat)
    requires |args| == |others| == 8 && fn != "raw" && 1 <= k < 8 && IsLast(args[k])
    requires forall i :: 0 <= i <= k ==> args[i] == others[i]
    ensures SerializeCall(fn, args) == SerializeCall(fn, others)
  {
    ParamsAfterLast(args[1..], others[1..], k - 1);
  }
}
