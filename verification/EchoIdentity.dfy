/**
 Echo identity across the translator: what comes back under a NAT-side
 identifier goes to the client that asked, under that client's own identifier.
 */
module EchoIdentity {
  import opened Octets
  import opened IcmpNat
  import opened IcmpNatLaws
  import opened InternetChecksum
  import opened Packets
  import EP = ErrorPackets
  import P = Prefixes

  /** The session a reply or a quoted request from `server` with identifier `id` belongs to. */
  function Owner(s: State, server: Addr4, id: uint16): Session
    requires SlotKey(server, id) in s.slots && s.slots[SlotKey(server, id)] < |s.store|
  {
    s.store[s.slots[SlotKey(server, id)]]
  }

  /** p is live: an entry of the query table whose session has identifier id. */
  ghost predicate LiveUnder(s: State, p: QueryKey, id: uint16) {
    p in s.queries && s.queries[p] < |s.store| && s.store[s.queries[p]].allocId == id
  }

  /** The owner of an identifier was registered by a request, and is the session of every live query under that identifier. */
  lemma OwnerAsked(seed: uint32, es: seq<Event>, server: Addr4, id: uint16)
    requires SlotKey(server, id) in After(seed, es).slots
    ensures After(seed, es).slots[SlotKey(server, id)] < |After(seed, es).store|
    ensures var x := Owner(After(seed, es), server, id);
            && x.server == server && x.allocId == id != 0 && Request(QueryOf(x)) in es
            && forall p: QueryKey :: p.server == server && LiveUnder(After(seed, es), p, id) ==> p == QueryOf(x)
  {
    RunsAreLinked(seed, es);
    RunsAreAsked(seed, es);
    hide After;
  }

  /** The converse: a live query's identifier is in its slot, and the owner there is its own session. */
  lemma LiveQueryIsOwner(seed: uint32, es: seq<Event>, p: QueryKey)
    requires p in After(seed, es).queries
    ensures var s := After(seed, es);
            && s.queries[p] < |s.store|
            && var k := SlotKey(p.server, s.store[s.queries[p]].allocId);
               && k in s.slots && s.slots[k] == s.queries[p]
               && QueryOf(Owner(s, p.server, k.id)) == p
  {
    RunsAreLinked(seed, es);
    hide After;
  }

  // ---------------------------------------------------------------------
  // A taken identifier is never handed on.

  lemma SlotKeepsItsSession(s: State, e: Event, k: SlotKey)
    requires Linked(s) && k in s.slots && k in Next(s, e).slots
    ensures Next(s, e).slots[k] == s.slots[k]
  {
    hide QueriesLinked, SlotsLinked, SweeperLinked, IdsToward, Touched;
  }

  /** The slot is taken in every state on the way. */
  ghost predicate HeldThroughout(seed: uint32, es: seq<Event>, fs: seq<Event>, k: SlotKey) {
    forall n :: 0 <= n <= |fs| ==> k in After(seed, es + fs[..n]).slots
  }

  lemma {:induction false} OwnerStays(seed: uint32, es: seq<Event>, fs: seq<Event>, k: SlotKey)
    requires HeldThroughout(seed, es, fs, k)
    ensures k in After(seed, es).slots && k in After(seed, es + fs).slots
    ensures After(seed, es + fs).slots[k] == After(seed, es).slots[k]
    ensures |After(seed, es).store| <= |After(seed, es + fs).store|
    ensures forall i :: 0 <= i < |After(seed, es).store| ==>
              QueryOf(After(seed, es + fs).store[i]) == QueryOf(After(seed, es).store[i])
  {
    assert es + fs[..0] == es && fs[..|fs|] == fs;
    if fs != [] {
      var n := |fs| - 1;
      var front, e := fs[..n], fs[n];
      assert forall m :: 0 <= m <= n ==> front[..m] == fs[..m];
      assert es + front + [e] == es + fs;
      hide After, Next;
      OwnerStays(seed, es, front, k);
      Extended(seed, es + front, e);
      RunsAreLinked(seed, es + front);
      SlotKeepsItsSession(After(seed, es + front), e, k);
      StoreOnlyGrows(After(seed, es + front), e);
    }
  }

  /** translateICMPv4Reply. */
  function ReplyPacket(pool: P.Pref64, x: Session, sequence: uint16, data: seq<byte>): (r: seq<byte>)
    requires |data| <= TOP - 8
    ensures |r| == 48 + |data|
  {
    EchoReply(P.Embed(pool, Be32(x.server)), Be128(x.client), x.clientId, sequence, data)
  }

  /** r is the reply for query q: to its client, under its identifier, from the one pool address of the server. */
  ghost predicate Answers(pool: P.Pref64, q: QueryKey, sequence: uint16, data: seq<byte>, r: seq<byte>)
    requires P.Valid(pool)
  {
    && |r| == 48 + |data| && r[24..40] == Be128(q.client) && Word16(r, 44) == q.id
    && Word16(r, 46) == sequence && r[48..] == data
    && Checksum(r[8..24], r[24..40], ICMPV6, r[40..]) == 0
    && (forall a: Octets16 :: P.Extract(pool, a) == Some(Be32(q.server)) ==> r[8..24] == a)
  }

  lemma ReplyAnswers(pool: P.Pref64, x: Session, sequence: uint16, data: seq<byte>)
    requires P.Valid(pool) && |data| <= TOP - 8
    ensures Answers(pool, QueryOf(x), sequence, data, ReplyPacket(pool, x, sequence, data))
  {
    var src := P.Embed(pool, Be32(x.server));
    forall a: Octets16 | P.Extract(pool, a) == Some(Be32(x.server))
      ensures a == src
    {
      P.ExtractIff(pool, a, Be32(x.server));
    }
    hide EchoReply, Checksum, Be32, Be128, P.Embed, P.Extract;
    EchoReplyIsRight(src, Be128(x.client), x.clientId, sequence, data);
  }

  /**
   In every interleaving, a reply from `server` under a taken identifier goes to
   exactly the client whose request was given that identifier: the query q of
   the session in the slot, asked for in the run, and the only live query
   toward that server under that identifier. It carries q's own identifier and
   the reply's sequence number and data, from the pool address q was sent to.
   */
  lemma RepliesGoHome(pool: P.Pref64, seed: uint32, es: seq<Event>, server: Addr4, id: uint16, sequence: uint16, data: seq<byte>)
    returns (q: QueryKey)
    requires P.Valid(pool) && SlotKey(server, id) in After(seed, es).slots && |data| <= TOP - 8
    ensures After(seed, es).slots[SlotKey(server, id)] < |After(seed, es).store|
    ensures q == QueryOf(Owner(After(seed, es), server, id)) && q.server == server && Request(q) in es
    ensures forall p: QueryKey :: p.server == server && LiveUnder(After(seed, es), p, id) ==> p == q
    ensures Answers(pool, q, sequence, data, ReplyPacket(pool, Owner(After(seed, es), server, id), sequence, data))
  {
    hide After, Answers, ReplyPacket, P.Valid;
    OwnerAsked(seed, es, server, id);
    q := QueryOf(Owner(After(seed, es), server, id));
    ReplyAnswers(pool, Owner(After(seed, es), server, id), sequence, data);
  }

  /**
   From the client's side: a reply under the identifier a live query was given
   answers that very query, now and at any later time while the identifier
   stays taken, whatever runs in between.
   */
  lemma LiveQueriesGetTheirReplies(pool: P.Pref64, seed: uint32, es: seq<Event>, fs: seq<Event>, p: QueryKey, id: uint16,
                                   sequence: uint16, data: seq<byte>)
    requires P.Valid(pool) && |data| <= TOP - 8
    requires LiveUnder(After(seed, es), p, id) && HeldThroughout(seed, es, fs, SlotKey(p.server, id))
    ensures var s := After(seed, es + fs);
            && SlotKey(p.server, id) in s.slots && s.slots[SlotKey(p.server, id)] < |s.store|
            && Answers(pool, p, sequence, data, ReplyPacket(pool, Owner(s, p.server, id), sequence, data))
  {
    hide After, Answers, ReplyPacket, P.Valid, HeldThroughout;
    LiveQueryIsOwner(seed, es, p);
    OwnerStays(seed, es, fs, SlotKey(p.server, id));
    ReplyAnswers(pool, Owner(After(seed, es + fs), p.server, id), sequence, data);
  }

  /** translateEchoQuotedError, for an error from `router` quoting our request to `server`. */
  function QuotedErrorPacket(pool: P.Pref64, x: Session, router: Addr4, egress: Addr4, kind: byte, code: byte, extra: uint32,
                             hops: byte, l4: seq<byte>): (r: seq<byte>)
    requires |l4| >= 8
    ensures |r| >= EP.FIXED + 8
  {
    var e := EP.Error(P.Embed(pool, Be32(router)), Be128(x.client), kind, code, extra);
    EP.ErrorPacket(e, EP.Quoted(P.Embed(pool, Be32(egress)), Be128(x.client), hops, ICMPV6, EP.EchoQuote(l4, x.clientId)))
  }

  /** r is this error about query q: from the router to its client, quoting an echo request with its identifier. */
  ghost predicate Reports(pool: P.Pref64, q: QueryKey, router: Addr4, egress: Addr4, kind: byte, code: byte, extra: uint32,
                          l4: seq<byte>, r: seq<byte>)
    requires |l4| >= 8
  {
    && |r| >= EP.FIXED + 8 && r[8..24] == P.Embed(pool, Be32(router)) && r[24..40] == Be128(q.client)
    && r[40..42] == [kind, code] && r[44..48] == Be32(extra) && Checksum(r[8..24], r[24..40], ICMPV6, r[40..]) == 0
    && EP.IsEchoQuote(r[EP.FIXED..], P.Embed(pool, Be32(egress)), Be128(q.client), l4, q.id)
  }

  lemma ErrorReports(pool: P.Pref64, x: Session, router: Addr4, egress: Addr4, kind: byte, code: byte, extra: uint32,
                     hops: byte, l4: seq<byte>)
    requires |l4| >= 8
    ensures Reports(pool, QueryOf(x), router, egress, kind, code, extra, l4, QuotedErrorPacket(pool, x, router, egress, kind, code, extra, hops, l4))
  {
    var e := EP.Error(P.Embed(pool, Be32(router)), Be128(x.client), kind, code, extra);
    var quoted := EP.Quoted(P.Embed(pool, Be32(egress)), Be128(x.client), hops, ICMPV6, EP.EchoQuote(l4, x.clientId));
    EP.ErrorPacketIsRight(e, quoted);
    EP.EchoErrorVerifies(e, quoted.src, quoted.dst, hops, l4, x.clientId);
    var r := EP.ErrorPacket(e, quoted);
    assert r[8..24] == e.src && r[24..40] == e.dst && r[40..42] == [kind, code] && r[44..48] == Be32(extra);
    hide EP.ErrorPacket, EP.EchoQuote, EP.IsEchoQuote, Be32, Be128, P.Embed, Checksum;
  }

  /** An error quoting an echo request goes to exactly the client whose request was given the quoted identifier. */
  lemma QuotedErrorsGoHome(pool: P.Pref64, seed: uint32, es: seq<Event>, server: Addr4, id: uint16, router: Addr4, egress: Addr4,
                           kind: byte, code: byte, extra: uint32, hops: byte, l4: seq<byte>)
    returns (q: QueryKey)
    requires |l4| >= 8 && SlotKey(server, id) in After(seed, es).slots
    ensures After(seed, es).slots[SlotKey(server, id)] < |After(seed, es).store|
    ensures q == QueryOf(Owner(After(seed, es), server, id)) && q.server == server && Request(q) in es
    ensures forall p: QueryKey :: p.server == server && LiveUnder(After(seed, es), p, id) ==> p == q
    ensures Reports(pool, q, router, egress, kind, code, extra, l4,
                    QuotedErrorPacket(pool, Owner(After(seed, es), server, id), router, egress, kind, code, extra, hops, l4))
  {
    hide After, Reports, QuotedErrorPacket;
    OwnerAsked(seed, es, server, id);
    q := QueryOf(Owner(After(seed, es), server, id));
    ErrorReports(pool, Owner(After(seed, es), server, id), router, egress, kind, code, extra, hops, l4);
  }

  /** And from the client's side: an error quoting a live query's identifier reports that very query, as long as it stays taken. */
  lemma LiveQueriesGetTheirErrors(pool: P.Pref64, seed: uint32, es: seq<Event>, fs: seq<Event>, p: QueryKey, id: uint16, router: Addr4,
                                  egress: Addr4, kind: byte, code: byte, extra: uint32, hops: byte, l4: seq<byte>)
    requires |l4| >= 8
    requires LiveUnder(After(seed, es), p, id) && HeldThroughout(seed, es, fs, SlotKey(p.server, id))
    ensures var s := After(seed, es + fs);
            && SlotKey(p.server, id) in s.slots && s.slots[SlotKey(p.server, id)] < |s.store|
            && Reports(pool, p, router, egress, kind, code, extra, l4, QuotedErrorPacket(pool, Owner(s, p.server, id), router, egress, kind, code, extra, hops, l4))
  {
    hide After, Reports, QuotedErrorPacket, HeldThroughout;
    LiveQueryIsOwner(seed, es, p);
    OwnerStays(seed, es, fs, SlotKey(p.server, id));
    ErrorReports(pool, Owner(After(seed, es + fs), p.server, id), router, egress, kind, code, extra, hops, l4);
  }
}
