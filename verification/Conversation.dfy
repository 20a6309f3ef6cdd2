/** Logging in and chatting (chatting_server.cpp): what the server does for a login, and whose name a notice carries. */
module Conversation {
  import opened Bytes
  import opened Varint
  import opened WireFormat
  import opened UnknownFields
  import opened Messages
  import opened Packets
  import opened PacketMessages
  import opened Chat
  import Framer

  // ---- The bytes of the four messages --------------------------------------------------------------

  function LoginRequestContent(name: Bytes): Bytes {
    Serialize([LOGIN_REQUEST_NAME], Message(map[LOGIN_REQUEST_NAME := Text(name)], []))
  }

  /** A string field: its tag, of one byte, a length and the bytes */
  function StringField(number: fieldnum, text: Bytes): Bytes
    requires 1 <= number < 16
  {
    [number * 8 + 2] + EncodeVarint(|text|) + text
  }

  lemma StringIsWritten(number: fieldnum, text: Bytes)
    requires 1 <= number < 16
    ensures SerializeValue(number, Text(text)) == StringField(number, text)
  {
    OneByteTag(number);
    hide EncodeVarint, MakeTag;
    Regroup([number * 8 + 2], EncodeVarint(|text|), text);
  }

  /** A message of one string field */
  lemma OneString(number: fieldnum, text: Bytes)
    requires 1 <= number < 16
    ensures Serialize([number], Message(map[number := Text(text)], [])) == StringField(number, text)
  {
    var known: map<fieldnum, FieldValue> := map[number := Text(text)];
    StringIsWritten(number, text);
    hide SerializeValue, StringField;
    assert [number][1..] == [];
    assert SerializeKnown([], known) == [] && SerializeFields([]) == [];
    assert SerializeKnown([number], known) == SerializeValue(number, Text(text)) + [];
  }

  lemma OneByteTag(number: fieldnum)
    requires 1 <= number < 16
    ensures EncodeVarint(MakeTag(number, WIRETYPE_LENGTH_DELIMITED)) == [number * 8 + 2]
  {
  }

  function NoticeContent(name: Bytes, text: Bytes): Bytes {
    [34] + EncodeVarint(|CString(name)|) + CString(name) + ([42] + EncodeVarint(|text|) + text)
  }

  /** What stands on the wire behind each header: tag bytes, lengths and strings, or the success flag */
  lemma ContentLayout(name: Bytes, text: Bytes)
    ensures LoginRequestContent(name) == [10] + EncodeVarint(|name|) + name
    ensures Serialize([LOGIN_RESPONSE_SUCCESS], Message(map[LOGIN_RESPONSE_SUCCESS := Flag(true)], [])) == [16, 1]
    ensures ChatRequestContent(text) == [26] + EncodeVarint(|text|) + text
    ensures Serialize(NOTIFY_ORDER, ChatNotice(name, text)) == NoticeContent(name, text)
  {
    hide Serialize, SerializeKnown, EncodeVarint, NoticeContent;
    OneString(LOGIN_REQUEST_NAME, name);
    PacketProcessor.LoginContent();
    SmallVarints();
    OneString(CHAT_REQUEST_MESSAGE, text);
    NoticeOnTheWire(name, text);
  }

  lemma SmallVarints()
    ensures EncodeVarint(16) + EncodeVarint(1) == [16, 1]
  {
  }

  lemma NoticeOnTheWire(name: Bytes, text: Bytes)
    ensures Serialize(NOTIFY_ORDER, ChatNotice(name, text)) == NoticeContent(name, text)
  {
    hide Serialize, SerializeKnown, CString, EncodeVarint;
    TwoStrings(CString(name), text);
  }

  lemma TwoStrings(name: Bytes, text: Bytes)
    ensures Serialize(NOTIFY_ORDER, Message(map[NOTIFY_NAME := Text(name), NOTIFY_MESSAGE := Text(text)], [])) ==
            StringField(NOTIFY_NAME, name) + StringField(NOTIFY_MESSAGE, text)
  {
    var known: map<fieldnum, FieldValue> := map[NOTIFY_NAME := Text(name), NOTIFY_MESSAGE := Text(text)];
    StringIsWritten(NOTIFY_NAME, name);
    StringIsWritten(NOTIFY_MESSAGE, text);
    hide SerializeValue, StringField;
    assert NOTIFY_ORDER[1..] == [NOTIFY_MESSAGE] && [NOTIFY_MESSAGE][1..] == [];
    assert SerializeKnown([], known) == [] && SerializeFields([]) == [];
    assert SerializeKnown([NOTIFY_MESSAGE], known) == SerializeValue(NOTIFY_MESSAGE, Text(text)) + [];
  }

  // ---- Logging in ----------------------------------------------------------------------------------

  function LoginRequest(crc: Crc, pad: Bytes, name: Bytes): Bytes
    requires |pad| == 2
  {
    Packet(crc, REQUEST_LOGIN, pad, LoginRequestContent(name))
  }

  lemma LoginContentFits(name: Bytes)
    requires |name| < TWO_31
    ensures |LoginRequestContent(name)| < TWO_32 - HEADER_SIZE
  {
    var m := Message(map[LOGIN_REQUEST_NAME := Text(name)], []);
    ByteSizeIsExact(LOGIN_REQUEST_SCHEMA, [LOGIN_REQUEST_NAME], m);
    assert KnownSize([LOGIN_REQUEST_NAME][1..], m.known) == 0;
  }

  /** A login request, cut in any way, is dispatched as it was sent, and the name is read back. */
  lemma LoginArrives(crc: Crc, pad: Bytes, name: Bytes, cut: seq<Bytes>)
    requires IsPad(pad) && |name| < TWO_31 && Framer.Concat(cut) == LoginRequest(crc, pad, name)
    ensures var p := LoginRequest(crc, pad, name);
            && WellFormedPacket(crc, true, p) && |p| < TWO_32
            && Framer.Run(crc, true, Framer.EMPTY, cut) == Framer.Result(Framer.EMPTY, [p])
            && ReadHeader(p).PacketSize() == |p| && ReadHeader(p).id == REQUEST_LOGIN
            && TextOf(Merge(LOGIN_REQUEST_SCHEMA, Content(p), Messages.EMPTY).msg, LOGIN_REQUEST_NAME) == name
  {
    hide Packet, Framer.Run, Merge;
    LoginContentFits(name);
    PacketReads(crc, REQUEST_LOGIN, pad, LoginRequestContent(name));
    Framer.OnePacketArrives(crc, true, LoginRequest(crc, pad, name), cut);
    RoundTrip(LOGIN_REQUEST_SCHEMA, [LOGIN_REQUEST_NAME], Message(map[LOGIN_REQUEST_NAME := Text(name)], []));
  }

  /** The reply is header and flag, 14 bytes; the client dispatches it however it is cut and reads success. */
  lemma ReplySaysSuccess(crc: Crc, pad: Bytes, cut: seq<Bytes>)
    requires IsPad(pad) && Framer.Concat(cut) == LoginReply(crc, pad)
    ensures var p := LoginReply(crc, pad);
            && Framer.Run(crc, false, Framer.EMPTY, cut) == Framer.Result(Framer.EMPTY, [p])
            && |p| == 14 && ReadHeader(p).PacketSize() == 14 && ReadHeader(p).id == REPLY_LOGIN && Content(p) == [16, 1]
            && Merge(LOGIN_RESPONSE_SCHEMA, Content(p), Messages.EMPTY) ==
               Outcome(true, Message(map[LOGIN_RESPONSE_SUCCESS := Flag(true)], []), 2, 0, true)
  {
    hide Packet, Framer.Run, Merge, Serialize;
    ContentLayout([], []);
    PacketReads(crc, REPLY_LOGIN, pad, [16, 1]);
    Framer.OnePacketArrives(crc, false, LoginReply(crc, pad), cut);
    RoundTrip(LOGIN_RESPONSE_SCHEMA, [LOGIN_RESPONSE_SUCCESS], Message(map[LOGIN_RESPONSE_SUCCESS := Flag(true)], []));
  }

  /**
   A login request for any name that fits, cut in any way, makes that the name of the session and leaves
   the other names alone. One packet is posted, to that session alone: a login reply, which its client
   dispatches however it is cut and which parses, completely, to success.
   */
  lemma LoginSetsTheName(crc: Crc, padIn: Bytes, padOut: Bytes, s: Server, id: nat, name: Bytes, cut: seq<Bytes>, cutOut: seq<Bytes>)
    requires IsPad(padIn) && IsPad(padOut) && id < |s.names| && |name| < TWO_31
    requires Framer.Concat(cut) == LoginRequest(crc, padIn, name) && Framer.Concat(cutOut) == LoginReply(crc, padOut)
    ensures var request, reply := LoginRequest(crc, padIn, name), LoginReply(crc, padOut);
            && Framer.Run(crc, true, Framer.EMPTY, cut) == Framer.Result(Framer.EMPTY, [request])
            && |request| >= HEADER_SIZE && ReadHeader(request).PacketSize() == |request|
            && (var s' := AfterPacket(crc, padOut, s, id, request);
                && s'.names[id] == name && (forall other | 0 <= other < |s.names| && other != id :: s'.names[other] == s.names[other])
                && s'.open == s.open && s'.posted == s.posted + [Post(id, reply)])
            && Framer.Run(crc, false, Framer.EMPTY, cutOut) == Framer.Result(Framer.EMPTY, [reply])
            && |reply| == 14 && ReadHeader(reply).PacketSize() == 14 && ReadHeader(reply).id == REPLY_LOGIN && Content(reply) == [16, 1]
            && Merge(LOGIN_RESPONSE_SCHEMA, Content(reply), Messages.EMPTY) ==
               Outcome(true, Message(map[LOGIN_RESPONSE_SUCCESS := Flag(true)], []), 2, 0, true)
  {
    hide Merge, Packet, LoginRequest, LoginReply, Framer.Run, ReadHeader;
    LoginArrives(crc, padIn, name, cut);
    ReplySaysSuccess(crc, padOut, cutOut);
  }

  /** Packets with any other id change nothing and are not answered. */
  lemma OtherPacketsAreIgnored(crc: Crc, pad: Bytes, s: Server, id: nat, data: Bytes)
    requires IsPad(pad) && id < |s.names| && |data| >= HEADER_SIZE && ReadHeader(data).PacketSize() <= |data|
    ensures ReadHeader(data).id != 1 && ReadHeader(data).id != 6 ==> AfterPacket(crc, pad, s, id, data) == s
  {
    hide ReadHeader;
  }

  // ---- From login to notice ------------------------------------------------------------------------

  /** A dispatched packet of a session, and the padding of what it is answered with */
  datatype Inbound = Inbound(session: nat, data: Bytes, pad: Bytes)

  ghost predicate Complete(e: Inbound, n: nat) {
    IsPad(e.pad) && e.session < n && |e.data| >= HEADER_SIZE && ReadHeader(e.data).PacketSize() <= |e.data|
  }

  ghost predicate IsLoginOf(e: Inbound, id: nat) {
    e.session == id && |e.data| >= HEADER_SIZE && ReadHeader(e.data).id == REQUEST_LOGIN
  }

  ghost function AfterAll(crc: Crc, s: Server, inbox: seq<Inbound>): (r: Server)
    requires forall i | 0 <= i < |inbox| :: Complete(inbox[i], |s.names|)
    ensures |r.names| == |s.names|
    decreases inbox
  {
    if inbox == [] then s
    else
      var e := inbox[0];
      assert Complete(e, |s.names|);
      AfterAll(crc, AfterPacket(crc, e.pad, s, e.session, e.data), inbox[1..])
  }

  /** Whatever else arrives, a name lasts until the session's next login. */
  lemma {:induction false} NameLasts(crc: Crc, s: Server, inbox: seq<Inbound>, id: nat)
    requires id < |s.names|
    requires forall i | 0 <= i < |inbox| :: Complete(inbox[i], |s.names|) && !IsLoginOf(inbox[i], id)
    ensures AfterAll(crc, s, inbox).names[id] == s.names[id]
    decreases inbox
  {
    if inbox != [] {
      var e := inbox[0];
      NameLastsOne(crc, s, e, id);
      hide AfterPacket;
      NameLasts(crc, AfterPacket(crc, e.pad, s, e.session, e.data), inbox[1..], id);
    }
  }

  lemma NameLastsOne(crc: Crc, s: Server, e: Inbound, id: nat)
    requires id < |s.names| && Complete(e, |s.names|) && !IsLoginOf(e, id)
    ensures AfterPacket(crc, e.pad, s, e.session, e.data).names[id] == s.names[id]
  {
    hide Merge, ReadHeader, NoticePacket, LoginReply;
  }

  /** A whole packet with the header of a chat notice, whose content is name and text on the wire and parses, completely, to them */
  ghost predicate IsNoticeOf(p: Bytes, name: Bytes, text: Bytes) {
    && |p| >= HEADER_SIZE && ReadHeader(p).PacketSize() == |p| && ReadHeader(p).id == NOTICE_CHAT
    && Content(p) == NoticeContent(name, text)
    && Merge(NOTIFY_SCHEMA, Content(p), Messages.EMPTY) == Outcome(true, ChatNotice(name, text), |p| - HEADER_SIZE, 0, true)
  }

  /**
   From login to notice. A session logs in with a name; then anything is dispatched but another login of
   that session, and sockets open and close; then it sends a chat text of at most 18 bytes. Its two
   packets, each cut in any way, are both dispatched; and the chat is posted, once each and in order, to
   the sessions that are open then, as a notice whose content is the name as far as its first NUL and the
   text. A client dispatches it however it is cut, and reads both.
   */
  lemma ChatCarriesTheLoginName(crc: Crc, pad1: Bytes, pad2: Bytes, padReply: Bytes, padOut: Bytes, s: Server, id: nat, name: Bytes, text: Bytes,
                                cut1: seq<Bytes>, cut2: seq<Bytes>, inbox: seq<Inbound>, open: set<nat>, cutOut: seq<Bytes>)
    requires IsPad(pad1) && IsPad(pad2) && IsPad(padReply) && IsPad(padOut)
    requires id < |s.names| && |name| < TWO_31 && |text| <= 18
    requires Framer.Concat(cut1) == LoginRequest(crc, pad1, name)
    requires Framer.Concat(cut2) == Packet(crc, REQUEST_CHAT, pad2, ChatRequestContent(text))
    requires forall i | 0 <= i < |inbox| :: Complete(inbox[i], |s.names|) && !IsLoginOf(inbox[i], id)
    requires Framer.Concat(cutOut) == NoticePacket(crc, padOut, name, text)
    ensures var login, chat := LoginRequest(crc, pad1, name), Packet(crc, REQUEST_CHAT, pad2, ChatRequestContent(text));
            var notice := NoticePacket(crc, padOut, name, text);
            && Framer.Run(crc, true, Framer.EMPTY, cut1 + cut2) == Framer.Result(Framer.EMPTY, [login, chat])
            && Complete(Inbound(id, login, padReply), |s.names|) && Complete(Inbound(id, chat, padOut), |s.names|)
            && (var s1 := AfterAll(crc, AfterPacket(crc, padReply, s, id, login), inbox).(open := open);
                var s2 := AfterPacket(crc, padOut, s1, id, chat);
                && |s1.posted| <= |s2.posted| && s2.posted[..|s1.posted|] == s1.posted
                && Delivers(s2.posted[|s1.posted|..], open, 0, |s.names|, notice))
            && Framer.Run(crc, false, Framer.EMPTY, cutOut) == Framer.Result(Framer.EMPTY, [notice])
            && IsNoticeOf(notice, name, text)
  {
    hide Merge, Packet, LoginRequest, LoginReply, NoticePacket, ChatRequestContent, Framer.Run, ReadHeader, AfterAll, Delivers, IsNoticeOf;
    LoginArrives(crc, pad1, name, cut1);
    var login := LoginRequest(crc, pad1, name);
    var s1 := AfterAll(crc, AfterPacket(crc, padReply, s, id, login), inbox).(open := open);
    NameLasts(crc, AfterPacket(crc, padReply, s, id, login), inbox, id);
    ChatIsDelivered(crc, pad2, padOut, s1, id, text, cut2, cutOut);
    Framer.RunAppend(crc, true, Framer.EMPTY, cut1, cut2);
    NoticeLayout(crc, padOut, name, text);
  }

  lemma NoticeLayout(crc: Crc, pad: Bytes, name: Bytes, text: Bytes)
    requires IsPad(pad) && |name| < TWO_31 && |text| <= 18
    ensures IsNoticeOf(NoticePacket(crc, pad, name, text), name, text)
  {
    hide Packet, Serialize, Merge;
    ContentLayout(name, text);
    NoticeIsSmall(name, text);
    PacketReads(crc, NOTICE_CHAT, pad, Serialize(NOTIFY_ORDER, ChatNotice(name, text)));
    NoticeReads(name, text);
  }

  /** What reaches the others is a part of the name, without a NUL, and it only stops short in front of one. */
  lemma {:induction false} CStringIsPrefix(s: Bytes)
    ensures var c := CString(s); c <= s && 0 !in c && (|c| < |s| ==> s[|c|] == 0)
  {
    if s != [] && s[0] != 0 {
      CStringIsPrefix(s[1..]);
      assert s == [s[0]] + s[1..];
    }
  }
}
