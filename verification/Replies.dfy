/** Replies to commands that touch no key, told from the request on (`src/cmd/mod.rs`). */
module Replies {
  import opened Base
  import opened Frames
  import opened Commands
  import opened Semantics
  import opened RoundTrip
  import Codec
  import Parser
  import Utf8
  import Utf8Grammar

  lemma {:induction false} TextsJoin(us: seq<nat>, vs: seq<nat>)
    requires Utf8Grammar.Scalars(us) && Utf8Grammar.Scalars(vs)
    ensures Utf8Grammar.Scalars(us + vs) && Utf8Grammar.Text(us + vs) == Utf8Grammar.Text(us) + Utf8Grammar.Text(vs)
  {
    hide Utf8Grammar.Utf8Bytes, Utf8Grammar.Scalar;
    if us == [] {
      assert us + vs == vs;
    } else {
      assert (us + vs)[1..] == us[1..] + vs;
      TextsJoin(us[1..], vs);
    }
  }

  lemma ValidJoin(a: Bytes, b: Bytes)
    requires Utf8.Valid(a) && Utf8.Valid(b)
    ensures Utf8.Valid(a + b)
  {
    hide Utf8.Valid, Utf8Grammar.Scalars, Utf8Grammar.Text;
    Utf8Grammar.ValidIffEncoded(a);
    Utf8Grammar.ValidIffEncoded(b);
    Utf8Grammar.ValidIffEncoded(a + b);
    var us :| Utf8Grammar.Scalars(us) && a == Utf8Grammar.Text(us);
    var vs :| Utf8Grammar.Scalars(vs) && b == Utf8Grammar.Text(vs);
    TextsJoin(us, vs);
  }

  lemma {:induction false} SanitizedIsValid(s: Bytes, i: nat)
    requires i <= |s| && Utf8.ValidFrom(s, i)
    ensures Utf8.ValidFrom(Sanitized(s), i)
    decreases |s| - i
  {
    if i < |s| {
      SanitizedSequence(s, i);
      SanitizedIsValid(s, i + Utf8.SequenceLen(s, i));
    }
  }

  lemma SanitizedSequence(s: Bytes, i: nat)
    requires i < |s|
    ensures Utf8.SequenceLen(Sanitized(s), i) == Utf8.SequenceLen(s, i)
  {
    forall j: nat, lo: int, hi: int | j < |s| && (0x80 <= lo || (lo == 0 && hi == 0x7F))
      ensures Utf8.InRange(Sanitized(s), j, lo, hi) <==> Utf8.InRange(s, j, lo, hi)
    {
    }
  }

  /** Whatever the name of an unknown command is, its refusal is one line that a client reads back, so the replies
      behind it stay in step. */
  lemma RefusalIsOneLine(m: Keyspace, name: Bytes, now: Millis, rest: Bytes)
    requires Utf8.Valid(name)
    ensures var reply := Step(m, Unknown(name), now).reply;
      reply.Error? && Parser.ParseFrame(Encode(reply) + rest, 0, 0, true) == Parser.Done(reply, |Encode(reply)|)
  {
    hide Utf8.ValidFrom, Parser.ParseFrame, Live;
    SanitizedIsValid(name, 0);
    var before: Bytes, after: Bytes := "ERR unknown command '", "'";
    Utf8.AsciiIsValid(before, 0);
    Utf8.AsciiIsValid(after, 0);
    ValidJoin(before, Sanitized(name));
    ValidJoin(before + Sanitized(name), after);
    var reply := Error(before + Sanitized(name) + after);
    ParseFrameAt(Encode(reply) + rest, 0, 0, reply, true);
  }

  lemma EchoStep(m: Keyspace, x: Bytes, now: Millis)
    ensures Step(m, Echo(x), now) == Step(m, Ping(Some(x)), now) == Executed(Live(m, now), Bulk(x))
    ensures Step(m, Ping(None), now) == Executed(Live(m, now), Simple("PONG"))
  {
    hide Live;
  }

  lemma PlainNames()
    ensures VerbName(ECHO) == "ECHO" && VerbName(PING) == "PING"
  {
  }

  /** PING and ECHO, in any case of letters, answer with the argument of the request, and PING alone with PONG. */
  lemma AnswersWithoutKeys(m: Keyspace, name: Bytes, x: Bytes, now: Millis)
    requires Codec.SameLetters(name, "ECHO") || Codec.SameLetters(name, "PING")
    ensures var c := FromFrame(Request([name, x]), now); c.Ok? && Step(m, c.value, now) == Executed(Live(m, now), Bulk(x))
    ensures Codec.SameLetters(name, "PING") ==>
      var c := FromFrame(Request([name]), now); c.Ok? && Step(m, c.value, now) == Executed(Live(m, now), Simple("PONG"))
  {
    hide FromFrame, Codec.SameLetters, Live, VerbName, Step;
    PlainNames();
    EchoStep(m, x, now);
    var verb := if Codec.SameLetters(name, "ECHO") then ECHO else PING;
    assert [name, x] == [name] + [x] && [name] == [name] + [];
    Codec.NamedRequestDecodes(name, verb, [x], now);
    if Codec.SameLetters(name, "PING") {
      Codec.NamedRequestDecodes(name, PING, [], now);
    }
  }
}
