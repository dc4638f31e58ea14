/**
 * Fragmentation of whole messages: the original's wire form is its envelope
 * (an opaque prefix of bytes) followed by its payload section.  Cutting it
 * into fragments, sending them, and decoding the reassembled bytes yields a
 * message with the original's length and payload.
 */
module FragmentationEndToEnd {
  import opened JavaLang
  import opened Wire
  import opened Envelopes
  import opened PartialOutput
  import opened FragPlanner
  import opened FragmentedMessages
  import BytesMessages

  /** The write calls of `writeTo` for a BytesMessage: the envelope bytes,
      then the payload section. */
  function BytesMessageWrites(prefix: seq<byte>, m: BytesMessages.BytesMessage): (ws: seq<Write>)
    requires m.buf.None? || BytesMessages.View(m).Some?
    ensures ValidWrites(ws)
    ensures Serialized(ws) == prefix + BytesMessages.WritePayload(m).value
  {
    var head := [Bytes(prefix, 0, |prefix|)];
    var tail := BytesMessages.PayloadWrites(m);
    assert prefix[0..|prefix|] == prefix;
    SerializedOne(head[0]);
    SerializedAppend(head, tail);
    head + tail
  }

  lemma {:induction false} SerializedAppend(a: seq<Write>, b: seq<Write>)
    requires ValidWrites(a) && ValidWrites(b)
    ensures ValidWrites(a + b)
    ensures Serialized(a + b) == Serialized(a) + Serialized(b)
    decreases |a|
  {
    assert ValidWrites(a + b) by {
      forall i | 0 <= i < |a + b|
        ensures ValidWrite((a + b)[i])
      {
        if i < |a| { assert (a + b)[i] == a[i]; } else { assert (a + b)[i] == b[i - |a|]; }
      }
    }
    if |a| > 0 {
      assert (a + b)[1..] == a[1..] + b;
      assert ValidWrites(a[1..]) by {
        forall i | 0 <= i < |a| - 1
          ensures ValidWrite(a[1..][i])
        {
          assert a[1..][i] == a[i + 1];
        }
      }
      SerializedAppend(a[1..], b);
      assert (a + b)[0] == a[0];
      assert Serialized(a + b) == Emitted(a[0]) + Serialized(a[1..] + b);
    } else {
      assert a + b == b;
    }
  }

  /** A BytesMessage cut into fragments of any size and put back together
      decodes, after its envelope, into a message with the same length and
      the same payload bytes; the size the planner is given is the exact
      length of the wire form. */
  lemma BytesMessageSurvivesFragmentation(prefix: seq<byte>, m: BytesMessages.BytesMessage, env: Envelope, fragSize: int)
    requires BytesMessages.Valid(m) && (m.buf.None? || BytesMessages.View(m).Some?) && fragSize > 0
    requires IsInt(|prefix| + BytesMessages.SizeOfPayload(m))
    ensures var ws := BytesMessageWrites(prefix, m);
            var S := Serialized(ws);
            var plan := ComputeFragOffsets(0, |S|, fragSize);
            var sent := SendAll(Fragments(ws, plan));
            && |S| == |prefix| + BytesMessages.SizeOfPayload(m)
            && sent.Ok?
            && ReceiveAll(sent.value, |plan|) == Ok((S, []))
            && S[..|prefix|] == prefix
            && var decoded := BytesMessages.ReadPayload(BytesMessages.Fresh(env), S[|prefix|..]);
               && decoded.Ok? && decoded.value.1 == []
               && BytesMessages.GetLength(decoded.value.0) == BytesMessages.GetLength(m)
               && BytesMessages.View(decoded.value.0) == BytesMessages.View(m)
  {
    var ws := BytesMessageWrites(prefix, m);
    var S := Serialized(ws);
    FragmentationRoundTrip(ws, fragSize);
    var payload := BytesMessages.WritePayload(m).value;
    assert S[..|prefix|] == prefix && S[|prefix|..] == payload;
    var none: seq<byte> := [];
    BytesMessages.PayloadRoundTrip(m, env, none);
    assert payload + none == payload;
    if m.buf.Some? {
      var v := BytesMessages.View(m).value;
      assert v[0..|v|] == v;
    }
  }

  /** An EmptyMessage's wire form is its envelope alone; after fragmentation
      the receiver gets exactly that envelope back, and `getLength()` of an
      EmptyMessage is 0 on either side. */
  lemma EmptyMessageSurvivesFragmentation(prefix: seq<byte>, fragSize: int)
    requires fragSize > 0 && IsInt(|prefix|)
    ensures var ws := [Bytes(prefix, 0, |prefix|)];
            var plan := ComputeFragOffsets(0, |Serialized(ws)|, fragSize);
            var sent := SendAll(Fragments(ws, plan));
            sent.Ok? && ReceiveAll(sent.value, |plan|) == Ok((prefix, []))
  {
    var ws := [Bytes(prefix, 0, |prefix|)];
    assert prefix[0..|prefix|] == prefix;
    assert ws[1..] == [];
    assert Serialized(ws) == prefix;
    FragmentationRoundTrip(ws, fragSize);
  }
}
