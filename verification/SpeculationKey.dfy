/** The key a speculative reply is found again by (app/server/runtime.cpp): tolerant of
    the punctuation typed in the last instant before send, and of nothing else. */
module SpeculationKey {
  import opened Bytes
  import opened TerminalTail

  const RS: byte := 0x1E
  const US: byte := 0x1F

  // " " \t \n . ! ? ~ and the full-width forms of the last five.
  const TAILS: seq<bytes> := [
    [32], [9], [10], [46], [33], [63], [126],
    [0xE2, 0x80, 0xA6], [0xE3, 0x80, 0x82], [0xEF, 0xBC, 0x81], [0xEF, 0xBC, 0x9F], [0xEF, 0xBD, 0x9E]]

  lemma TailsDistinct()
    ensures Distinct(TAILS)
  {
  }

  // ---- Conversations -------------------------------------------------------

  // The roles the chat endpoint accepts.
  datatype Role = System | User | Assistant

  datatype Message = Message(role: Role, content: bytes)

  function Name(role: Role): (name: bytes)
    ensures name != [] && RS !in name && US !in name
  {
    match role
    case System => [115, 121, 115, 116, 101, 109]
    case User => [117, 115, 101, 114]
    case Assistant => [97, 115, 115, 105, 115, 116, 97, 110, 116]
  }

  lemma NamesDiffer(r1: Role, r2: Role)
    requires Name(r1)[0] == Name(r2)[0]
    ensures r1 == r2
  {
  }

  // The newest user message among the first n, or |list|.
  function LastUser(list: seq<Message>, n: nat := |list|): (k: nat)
    requires n <= |list|
    ensures k == |list| || (k < n && list[k].role == User)
    ensures forall i | 0 <= i < n && (k == |list| || k < i) :: list[i].role != User
    decreases n
  {
    if n == 0 then |list|
    else if list[n - 1].role == User then n - 1
    else LastUser(list, n - 1)
  }

  // The conversation with the tail of its newest user message stripped.
  function Canonical(tails: seq<bytes>, list: seq<Message>, lastUser: nat := LastUser(list)): seq<Message>
    requires Distinct(tails)
  {
    if lastUser < |list| then
      list[lastUser := Message(list[lastUser].role, StripTerminalTail(tails, list[lastUser].content))]
    else list
  }

  // ---- The encoding --------------------------------------------------------

  function Head(role: Role): bytes { Name(role) + [US] }

  function Entry(m: Message): bytes { Head(m.role) + (m.content + [RS]) }

  function Encode(list: seq<Message>): bytes {
    if list == [] then [] else Entry(list[0]) + Encode(list[1..])
  }

  function Key(list: seq<Message>): bytes {
    TailsDistinct();
    Encode(Canonical(TAILS, list))
  }

  // A content that holds a record separator, a role and a unit separator in that order
  // reads as two messages.
  predicate StartsWithHead(s: bytes) { Head(System) <= s || Head(User) <= s || Head(Assistant) <= s }

  predicate BreaksAt(content: bytes, p: nat)
    requires p < |content|
  {
    content[p] == RS && StartsWithHead(content[p + 1..])
  }

  predicate Unambiguous(content: bytes) { forall p | 0 <= p < |content| :: !BreaksAt(content, p) }

  predicate AllUnambiguous(list: seq<Message>) { forall i | 0 <= i < |list| :: Unambiguous(list[i].content) }

  lemma NoUnitNoHead(s: bytes)
    requires US !in s
    ensures !StartsWithHead(s)
  {
    forall role: Role
      ensures !(Head(role) <= s)
    {
      assert Head(role)[|Head(role)| - 1] == US;
    }
  }

  lemma PlainIsUnambiguous(content: bytes)
    requires RS !in content || US !in content
    ensures Unambiguous(content)
  {
    forall p | 0 <= p < |content|
      ensures !BreaksAt(content, p)
    {
      if content[p] == RS { NoUnitNoHead(content[p + 1..]); }
    }
  }

  lemma HeadExtends(s: bytes, more: bytes)
    ensures StartsWithHead(s) ==> StartsWithHead(s + more)
  {
  }

  lemma PrefixUnambiguous(whole: bytes, content: bytes, more: bytes)
    requires Unambiguous(whole) && whole == content + more
    ensures Unambiguous(content)
  {
    forall p | 0 <= p < |content|
      ensures !BreaksAt(content, p)
    {
      assert !BreaksAt(whole, p);
      assert whole[p + 1..] == content[p + 1..] + more;
      HeadExtends(content[p + 1..], more);
    }
  }

  lemma StripUnambiguous(tails: seq<bytes>, content: bytes)
    requires Distinct(tails)
    requires Unambiguous(content)
    ensures Unambiguous(StripTerminalTail(tails, content))
  {
    var run := StripRemovesTheRun(tails, content);
    PrefixUnambiguous(content, StripTerminalTail(tails, content), Flatten(run));
  }

  lemma CanonicalAt(tails: seq<bytes>, list: seq<Message>, i: nat)
    requires Distinct(tails)
    requires i < |list|
    ensures |Canonical(tails, list)| == |list| && Canonical(tails, list)[i].role == list[i].role
    ensures Canonical(tails, list)[i].content == if i == LastUser(list) then StripTerminalTail(tails, list[i].content) else list[i].content
  {
  }

  lemma SetUnambiguous(list: seq<Message>, k: nat, m: Message)
    requires AllUnambiguous(list) && k < |list| && Unambiguous(m.content)
    ensures AllUnambiguous(list[k := m])
  {
  }

  lemma CanonicalUnambiguous(tails: seq<bytes>, list: seq<Message>)
    requires Distinct(tails)
    requires AllUnambiguous(list)
    ensures AllUnambiguous(Canonical(tails, list))
  {
    var k := LastUser(list);
    if k < |list| {
      var content := list[k].content;
      StripUnambiguous(tails, content);
      SetUnambiguous(list, k, Message(list[k].role, StripTerminalTail(tails, content)));
    }
  }

  // No head holds a record separator, so none can reach across one.
  lemma HeadFits(tail: bytes, more: bytes)
    requires StartsWithHead(tail + ([RS] + more))
    ensures StartsWithHead(tail)
  {
    var s := tail + ([RS] + more);
    var role: Role :| Head(role) <= s;
    assert s[|tail|] == RS;
    assert |Head(role)| <= |tail|;
    assert Head(role) <= tail;
  }

  // A content is not shorter than another it could be cut from.
  lemma NotShorter(c: bytes, rest: bytes, d: bytes, more: bytes)
    requires c + ([RS] + rest) == d + ([RS] + more) && Unambiguous(d) && (rest == [] || StartsWithHead(rest))
    ensures |c| >= |d|
  {
    var whole := c + ([RS] + rest);
    if |c| < |d| {
      assert d[|c|] == whole[|c|] == RS;
      assert rest == whole[|c| + 1..] == d[|c| + 1..] + ([RS] + more);
      HeadFits(d[|c| + 1..], more);
      assert BreaksAt(d, |c|);
    }
  }

  lemma SameContent(c1: bytes, rest1: bytes, c2: bytes, rest2: bytes)
    requires c1 + ([RS] + rest1) == c2 + ([RS] + rest2) && Unambiguous(c1) && Unambiguous(c2)
    requires (rest1 == [] || StartsWithHead(rest1)) && (rest2 == [] || StartsWithHead(rest2))
    ensures c1 == c2 && rest1 == rest2
  {
    NotShorter(c1, rest1, c2, rest2);
    NotShorter(c2, rest2, c1, rest1);
    var t1, t2 := c1 + ([RS] + rest1), c2 + ([RS] + rest2);
    assert c1 == t1[..|c1|] && c2 == t2[..|c2|];
    assert rest1 == t1[|c1| + 1..] && rest2 == t2[|c2| + 1..];
  }

  lemma SameHead(r1: Role, s1: bytes, r2: Role, s2: bytes)
    requires Head(r1) + s1 == Head(r2) + s2
    ensures r1 == r2 && s1 == s2
  {
    var t1, t2 := Head(r1) + s1, Head(r2) + s2;
    assert t1[0] == Name(r1)[0] && t2[0] == Name(r2)[0];
    NamesDiffer(r1, r2);
    assert s1 == t1[|Head(r1)|..] && s2 == t2[|Head(r2)|..];
  }

  // The encoding of a list that is not empty, taken apart at its first content.
  lemma FirstEntry(list: seq<Message>)
    requires list != []
    ensures Encode(list) == Head(list[0].role) + (list[0].content + ([RS] + Encode(list[1..])))
    ensures StartsWithHead(Encode(list))
  {
    var head, content, rest := Head(list[0].role), list[0].content, Encode(list[1..]);
    Assoc(content, [RS], rest);
    Assoc(head, content + [RS], rest);
    assert head <= Encode(list);
  }

  lemma {:induction false} EncodeInjective(a: seq<Message>, b: seq<Message>)
    requires AllUnambiguous(a) && AllUnambiguous(b) && Encode(a) == Encode(b)
    ensures a == b
  {
    if a != [] && b != [] {
      FirstEntry(a);
      FirstEntry(b);
      SameHead(a[0].role, a[0].content + ([RS] + Encode(a[1..])), b[0].role, b[0].content + ([RS] + Encode(b[1..])));
      if a[1..] != [] { FirstEntry(a[1..]); }
      if b[1..] != [] { FirstEntry(b[1..]); }
      SameContent(a[0].content, Encode(a[1..]), b[0].content, Encode(b[1..]));
      EncodeInjective(a[1..], b[1..]);
      assert a == [a[0]] + a[1..] && b == [b[0]] + b[1..];
    }
  }

  // ---- What a key is read as -----------------------------------------------

  // The first record separator from p on that a head follows, or |content|.
  function FirstBreak(content: bytes, p: nat := 0): (b: nat)
    requires p <= |content|
    ensures p <= b <= |content|
    ensures b < |content| ==> BreaksAt(content, b)
    ensures forall q | p <= q < b :: !BreaksAt(content, q)
    decreases |content| - p
  {
    if p == |content| || BreaksAt(content, p) then p else FirstBreak(content, p + 1)
  }

  function RoleAt(s: bytes): (role: Role)
    requires StartsWithHead(s)
    ensures Head(role) <= s
  {
    if Head(System) <= s then System
    else if Head(User) <= s then User
    else Assistant
  }

  function AfterHead(s: bytes): (rest: bytes)
    requires StartsWithHead(s)
    ensures s == Head(RoleAt(s)) + rest
  {
    s[|Head(RoleAt(s))|..]
  }

  // One message as a reader of its entry takes it: at every record separator that a
  // head follows, another message begins.
  function Reread(role: Role, content: bytes): seq<Message>
    decreases |content|
  {
    var b := FirstBreak(content);
    if b == |content| then [Message(role, content)]
    else
      var next := content[b + 1..];
      [Message(role, content[..b])] + Reread(RoleAt(next), AfterHead(next))
  }

  // A conversation as a reader of its encoding takes it.
  function Expand(list: seq<Message>): seq<Message> {
    if list == [] then [] else Reread(list[0].role, list[0].content) + Expand(list[1..])
  }

  lemma {:induction false} EncodeConcat(a: seq<Message>, b: seq<Message>)
    ensures Encode(a + b) == Encode(a) + Encode(b)
  {
    if a == [] {
      assert a + b == b;
    } else {
      assert (a + b)[1..] == a[1..] + b;
      EncodeConcat(a[1..], b);
      Assoc(Entry(a[0]), Encode(a[1..]), Encode(b));
    }
  }

  lemma EncodeOne(m: Message)
    ensures Encode([m]) == Entry(m)
  {
    assert [m][1..] == [];
    assert Entry(m) + [] == Entry(m);
  }

  lemma BrokenEntry(role: Role, content: bytes, b: nat, next: Role, rest: bytes)
    requires b < |content| && content[b] == RS && content[b + 1..] == Head(next) + rest
    ensures Entry(Message(role, content)) == Entry(Message(role, content[..b])) + Entry(Message(next, rest))
  {
    var front := content[..b];
    assert content == front + ([RS] + (Head(next) + rest));
    Assoc(front, [RS] + (Head(next) + rest), [RS]);
    Assoc([RS], Head(next) + rest, [RS]);
    Assoc(Head(next), rest, [RS]);
    Assoc(front, [RS], Head(next) + (rest + [RS]));
    Assoc(Head(role), front + [RS], Head(next) + (rest + [RS]));
  }

  lemma FrontEncodes(role: Role, content: bytes, b: nat, more: seq<Message>)
    requires b < |content| && BreaksAt(content, b)
    requires var next := content[b + 1..]; Encode(more) == Entry(Message(RoleAt(next), AfterHead(next)))
    ensures Encode([Message(role, content[..b])] + more) == Entry(Message(role, content))
  {
    var next := content[b + 1..];
    BrokenEntry(role, content, b, RoleAt(next), AfterHead(next));
    EncodeConcat([Message(role, content[..b])], more);
    EncodeOne(Message(role, content[..b]));
  }

  lemma {:induction false} RereadEncodes(role: Role, content: bytes)
    ensures Encode(Reread(role, content)) == Entry(Message(role, content))
    decreases |content|
  {
    var b := FirstBreak(content);
    if b == |content| {
      EncodeOne(Message(role, content));
    } else {
      var next := content[b + 1..];
      RereadEncodes(RoleAt(next), AfterHead(next));
      FrontEncodes(role, content, b, Reread(RoleAt(next), AfterHead(next)));
    }
  }

  lemma BeforeBreakUnambiguous(content: bytes, b: nat)
    requires b == FirstBreak(content)
    ensures Unambiguous(content[..b])
  {
    var front := content[..b];
    forall p | 0 <= p < b
      ensures !BreaksAt(front, p)
    {
      assert !BreaksAt(content, p);
      assert content[p + 1..] == front[p + 1..] + content[b..];
      HeadExtends(front[p + 1..], content[b..]);
    }
  }

  lemma UnambiguousConcat(a: seq<Message>, b: seq<Message>)
    requires AllUnambiguous(a) && AllUnambiguous(b)
    ensures AllUnambiguous(a + b)
  {
  }

  lemma UnambiguousCons(m: Message, more: seq<Message>)
    requires Unambiguous(m.content) && AllUnambiguous(more)
    ensures AllUnambiguous([m] + more)
  {
  }

  lemma {:induction false} RereadUnambiguous(role: Role, content: bytes)
    ensures AllUnambiguous(Reread(role, content))
    decreases |content|
  {
    var b := FirstBreak(content);
    if b < |content| {
      var next := content[b + 1..];
      RereadUnambiguous(RoleAt(next), AfterHead(next));
      BeforeBreakUnambiguous(content, b);
      UnambiguousCons(Message(role, content[..b]), Reread(RoleAt(next), AfterHead(next)));
    } else {
      UnambiguousCons(Message(role, content), []);
      assert [Message(role, content)] + [] == [Message(role, content)];
    }
  }

  // A reader takes the encoding back to messages that are all unambiguous and have the
  // same encoding.
  lemma {:induction false} ExpandReads(list: seq<Message>)
    ensures Encode(Expand(list)) == Encode(list) && AllUnambiguous(Expand(list))
  {
    if list != [] {
      RereadEncodes(list[0].role, list[0].content);
      RereadUnambiguous(list[0].role, list[0].content);
      ExpandReads(list[1..]);
      EncodeConcat(Reread(list[0].role, list[0].content), Expand(list[1..]));
      UnambiguousConcat(Reread(list[0].role, list[0].content), Expand(list[1..]));
    }
  }

  lemma {:induction false} ExpandUnambiguous(list: seq<Message>)
    requires AllUnambiguous(list)
    ensures Expand(list) == list
  {
    if list != [] {
      assert Unambiguous(list[0].content);
      assert AllUnambiguous(list[1..]) by {
        assert forall i | 0 <= i < |list| - 1 :: list[1..][i] == list[i + 1];
      }
      ExpandUnambiguous(list[1..]);
      assert list == [list[0]] + list[1..];
    }
  }

  // ---- What equal keys mean ------------------------------------------------

  // The same messages, but for the tail of the newest one from the user.
  ghost predicate SameConversation(tails: seq<bytes>, a: seq<Message>, b: seq<Message>) {
    && |a| == |b|
    && (forall i | 0 <= i < |a| :: a[i].role == b[i].role)
    && (forall i | 0 <= i < |a| && i != LastUser(a) :: a[i].content == b[i].content)
    && (LastUser(a) < |a| ==> SameUpToTails(tails, a[LastUser(a)].content, b[LastUser(a)].content))
  }

  lemma SameRolesSameUser(a: seq<Message>, b: seq<Message>)
    requires |a| == |b| && (forall i | 0 <= i < |a| :: a[i].role == b[i].role)
    ensures LastUser(a) == LastUser(b)
  {
  }

  lemma CanonicalSameRoles(tails: seq<bytes>, a: seq<Message>, b: seq<Message>)
    requires Distinct(tails)
    requires Canonical(tails, a) == Canonical(tails, b)
    ensures |a| == |b| && forall i | 0 <= i < |a| :: a[i].role == b[i].role
  {
    forall i | 0 <= i < |a|
      ensures a[i].role == b[i].role
    {
      CanonicalAt(tails, a, i);
      CanonicalAt(tails, b, i);
    }
  }

  lemma CanonicalEqualIff(tails: seq<bytes>, a: seq<Message>, b: seq<Message>)
    requires Distinct(tails)
    ensures Canonical(tails, a) == Canonical(tails, b) <==> SameConversation(tails, a, b)
  {
    if Canonical(tails, a) == Canonical(tails, b) {
      CanonicalSameRoles(tails, a, b);
    }
    if |a| == |b| && forall i | 0 <= i < |a| :: a[i].role == b[i].role {
      SameRolesSameUser(a, b);
      CanonicalByContent(tails, a, b);
    }
  }

  lemma CanonicalByContent(tails: seq<bytes>, a: seq<Message>, b: seq<Message>)
    requires Distinct(tails)
    requires |a| == |b| && (forall i | 0 <= i < |a| :: a[i].role == b[i].role) && LastUser(a) == LastUser(b)
    ensures Canonical(tails, a) == Canonical(tails, b) <==> SameConversation(tails, a, b)
  {
    forall i | 0 <= i < |a|
      ensures Canonical(tails, a)[i] == Canonical(tails, b)[i] <==>
              if i == LastUser(a) then SameUpToTails(tails, a[i].content, b[i].content)
              else a[i].content == b[i].content
    {
      CanonicalAt(tails, a, i);
      CanonicalAt(tails, b, i);
      StripEqualIff(tails, a[i].content, b[i].content);
    }
    assert Canonical(tails, a) == Canonical(tails, b) <==> forall i | 0 <= i < |a| :: Canonical(tails, a)[i] == Canonical(tails, b)[i];
  }

  // What is left of a conversation once it has been turned into a key.
  function Reading(list: seq<Message>): seq<Message> {
    TailsDistinct();
    Expand(Canonical(TAILS, list))
  }

  // Two conversations share a key exactly when, the tails of their newest user messages
  // stripped, they read as the same messages, whatever they hold.
  lemma KeyEqualIff(a: seq<Message>, b: seq<Message>)
    ensures Key(a) == Key(b) <==> Reading(a) == Reading(b)
  {
    TailsDistinct();
    ExpandReads(Canonical(TAILS, a));
    ExpandReads(Canonical(TAILS, b));
    if Key(a) == Key(b) {
      EncodeInjective(Expand(Canonical(TAILS, a)), Expand(Canonical(TAILS, b)));
    }
  }

  // So for contents without a head after a record separator the key is sound and
  // tolerant: it identifies two conversations exactly when they differ in no more than
  // the tail of the newest user message.
  lemma PlainKeyEqualIff(a: seq<Message>, b: seq<Message>)
    requires AllUnambiguous(a) && AllUnambiguous(b)
    ensures Key(a) == Key(b) <==> SameConversation(TAILS, a, b)
  {
    TailsDistinct();
    KeyEqualIff(a, b);
    CanonicalEqualIff(TAILS, a, b);
    CanonicalUnambiguous(TAILS, a);
    CanonicalUnambiguous(TAILS, b);
    ExpandUnambiguous(Canonical(TAILS, a));
    ExpandUnambiguous(Canonical(TAILS, b));
  }

  lemma CanonicalIgnoresTails(tails: seq<bytes>, list: seq<Message>, run: seq<bytes>)
    requires Distinct(tails) && LastUser(list) < |list| && AllTails(tails, run)
    ensures var k := LastUser(list);
            Canonical(tails, list[k := Message(User, list[k].content + Flatten(run))]) == Canonical(tails, list)
  {
    var k := LastUser(list);
    SameRolesSameUser(list, list[k := Message(User, list[k].content + Flatten(run))]);
    StripIgnoresTails(tails, list[k].content, run);
  }

  // Finishing the newest user message with any run of tails leaves the key as it was,
  // whatever the messages hold.
  lemma KeyIgnoresTails(list: seq<Message>, run: seq<bytes>)
    requires LastUser(list) < |list| && AllTails(TAILS, run)
    ensures var k := LastUser(list);
            Key(list[k := Message(User, list[k].content + Flatten(run))]) == Key(list)
  {
    TailsDistinct();
    CanonicalIgnoresTails(TAILS, list, run);
  }

  // Without the condition on the contents the key does not tell conversations apart.
  lemma SeparatorsCollide(x: bytes, y: bytes)
    ensures var one := [Message(Assistant, x + ([RS] + (Head(Assistant) + y)))];
            var two := [Message(Assistant, x), Message(Assistant, y)];
            Key(one) == Key(two) && !SameConversation(TAILS, one, two)
  {
    var one := [Message(Assistant, x + ([RS] + (Head(Assistant) + y)))];
    var two := [Message(Assistant, x), Message(Assistant, y)];
    FirstEntry(one);
    FirstEntry(two);
    FirstEntry(two[1..]);
    assert one[1..] == [] && two[1..][1..] == [];
    Assoc(x, [RS] + (Head(Assistant) + y), [RS] + []);
    Assoc([RS], Head(Assistant) + y, [RS] + []);
    Assoc(Head(Assistant), y, [RS] + []);
  }

  // The newest user message as the endpoint finds it, going forward.
  method FindLastUser(list: seq<Message>) returns (lastUser: nat)
    ensures lastUser == LastUser(list)
  {
    lastUser := |list|;
    for i := 0 to |list|
      invariant lastUser == LastUser(list, i)
    {
      if list[i].role == User {
        lastUser := i;
      }
    }
  }

  lemma EncodeOneMore(key: bytes, list: seq<Message>)
    requires list != []
    ensures (((key + Name(list[0].role)) + [US]) + list[0].content) + [RS] + Encode(list[1..]) == key + Encode(list)
  {
    FirstEntry(list);
    var name, content, rest := Name(list[0].role), list[0].content, Encode(list[1..]);
    Assoc(key, name, [US]);
    Assoc(key, name + [US], content);
    Assoc(key, (name + [US]) + content, [RS]);
    Assoc(key, ((name + [US]) + content) + [RS], rest);
    Assoc(name + [US], content, [RS]);
    Assoc(name + [US], content + [RS], rest);
  }

  method BuildKey(tails: seq<bytes>, list: seq<Message>, lastUser: nat) returns (key: bytes)
    requires Distinct(tails)
    ensures key == Encode(Canonical(tails, list, lastUser))
  {
    key := [];
    ghost var canonical := Canonical(tails, list, lastUser);
    for i := 0 to |list|
      invariant key + Encode(canonical[i..]) == Encode(canonical)
    {
      EncodeOneMore(key, canonical[i..]);
      assert canonical[i..][1..] == canonical[i + 1..];
      key := key + Name(list[i].role);
      key := key + [US];
      var content := list[i].content;
      if i == lastUser {
        content := StripTail(tails, content);
      }
      key := key + content;
      key := key + [RS];
    }
  }
}
