/** Push-notification token bookkeeping. Each user stores a list of Firebase
    Cloud Messaging registration tokens. A send hands a list of tokens to FCM,
    which answers with one reply per token, in the same order; tokens whose
    reply says the registration is dead are then pruned from the store.
    The FCM call itself is not modelled: its replies are an input. */
module Notifications {
  import opened Wrappers
  import opened ApiErrors

  type UserId = string
  type Token = string

  /** FCM accepts at most 500 tokens in one multicast. */
  const BatchLimit: nat := 500

  const NotRegistered := "messaging/registration-token-not-registered"
  const InvalidRegistration := "messaging/invalid-registration-token"

  /** One entry of `BatchResponse.responses`: whether the send succeeded and,
      when it did not, the error code if there is one. */
  datatype SendResponse = SendResponse(success: bool, errorCode: Option<string>)

  /** The counts a send returns to its caller. */
  datatype Counts = Counts(successCount: nat, failureCount: nat)

  /** A user with a non-empty token list, as the bulk send collects them. */
  datatype Entry = Entry(userId: UserId, tokens: seq<Token>)

  function Min(a: int, b: int): int
  {
    if a <= b then a else b
  }

  // ------------------------------------------------------------ replies

  /** A reply that marks its token as no longer usable. Other failures
      (quota, unavailable server, a reply without an error) keep the token. */
  predicate IsDeadReply(r: SendResponse)
  {
    !r.success && (r.errorCode == Some(NotRegistered) || r.errorCode == Some(InvalidRegistration))
  }

  /** The tokens whose paired reply is dead, in token order. */
  function DeadTokens(tokens: seq<Token>, replies: seq<SendResponse>): seq<Token>
    requires |replies| == |tokens|
  {
    if tokens == [] then []
    else
      var n := |tokens| - 1;
      DeadTokens(tokens[..n], replies[..n]) + (if IsDeadReply(replies[n]) then [tokens[n]] else [])
  }

  /** A token is collected iff some position holding it has a dead reply. */
  lemma {:induction false} DeadTokensIff(tokens: seq<Token>, replies: seq<SendResponse>, t: Token)
    requires |replies| == |tokens|
    ensures t in DeadTokens(tokens, replies)
        <==> exists i :: 0 <= i < |tokens| && tokens[i] == t && IsDeadReply(replies[i])
  {
    if tokens != [] {
      var n := |tokens| - 1;
      DeadTokensIff(tokens[..n], replies[..n], t);
      assert forall i :: 0 <= i < n ==> tokens[..n][i] == tokens[i] && replies[..n][i] == replies[i];
    }
  }

  /** Each position contributes at most its own token, so at most one token per reply is collected. */
  lemma {:induction false} DeadTokensLength(tokens: seq<Token>, replies: seq<SendResponse>)
    requires |replies| == |tokens|
    ensures |DeadTokens(tokens, replies)| <= |tokens|
  {
    if tokens != [] {
      var n := |tokens| - 1;
      DeadTokensLength(tokens[..n], replies[..n]);
    }
  }

  function DeadSet(tokens: seq<Token>, replies: seq<SendResponse>): set<Token>
    requires |replies| == |tokens|
  {
    set t | t in DeadTokens(tokens, replies)
  }

  function SuccessCount(replies: seq<SendResponse>): nat
  {
    if replies == [] then 0 else (if replies[0].success then 1 else 0) + SuccessCount(replies[1..])
  }

  function FailureCount(replies: seq<SendResponse>): nat
  {
    if replies == [] then 0 else (if replies[0].success then 0 else 1) + FailureCount(replies[1..])
  }

  /** Every reply is counted exactly once, as a success or as a failure. */
  lemma {:induction false} CountsAddUp(replies: seq<SendResponse>)
    ensures SuccessCount(replies) + FailureCount(replies) == |replies|
  {
    if replies != [] {
      CountsAddUp(replies[1..]);
    }
  }

  // -------------------------------------------------------------- pruning

  /** `tokens.filter(t => !dead.has(t))` */
  function Without(tokens: seq<Token>, dead: set<Token>): seq<Token>
  {
    if tokens == [] then []
    else (if tokens[0] in dead then [] else [tokens[0]]) + Without(tokens[1..], dead)
  }

  /** `a` can be obtained from `b` by deleting elements. */
  predicate IsSubsequence(a: seq<Token>, b: seq<Token>)
    decreases b
  {
    if a == [] then true
    else if b == [] then false
    else (a[0] == b[0] && IsSubsequence(a[1..], b[1..])) || IsSubsequence(a, b[1..])
  }

  /** Pruning keeps each surviving token as often as it occurred and drops every dead one. */
  lemma {:induction false} WithoutCounts(tokens: seq<Token>, dead: set<Token>, t: Token)
    ensures multiset(Without(tokens, dead))[t] == if t in dead then 0 else multiset(tokens)[t]
  {
    if tokens != [] {
      WithoutCounts(tokens[1..], dead, t);
      assert tokens == [tokens[0]] + tokens[1..];
    }
  }

  lemma WithoutMembers(tokens: seq<Token>, dead: set<Token>, t: Token)
    ensures t in Without(tokens, dead) <==> t in tokens && t !in dead
  {
    WithoutCounts(tokens, dead, t);
  }

  /** The pruned list keeps the order of the stored one. */
  lemma {:induction false} WithoutSubsequence(tokens: seq<Token>, dead: set<Token>)
    ensures IsSubsequence(Without(tokens, dead), tokens)
  {
    if tokens != [] {
      WithoutSubsequence(tokens[1..], dead);
      var rest := Without(tokens[1..], dead);
      if tokens[0] in dead {
        assert Without(tokens, dead) == rest;
        assert IsSubsequence(rest, tokens);
      } else {
        assert Without(tokens, dead) == [tokens[0]] + rest;
        assert ([tokens[0]] + rest)[1..] == rest;
      }
    }
  }

  /** Pruning leaves a list alone iff none of its tokens is dead, and it
      changes a list iff it shortens it. */
  lemma {:induction false} WithoutUnchanged(tokens: seq<Token>, dead: set<Token>)
    ensures Without(tokens, dead) == tokens <==> forall t :: t in tokens ==> t !in dead
    ensures |Without(tokens, dead)| == |tokens| <==> Without(tokens, dead) == tokens
    ensures |Without(tokens, dead)| <= |tokens|
  {
    if tokens != [] {
      WithoutUnchanged(tokens[1..], dead);
      assert forall t :: t in tokens <==> t == tokens[0] || t in tokens[1..];
      if tokens[0] !in dead {
        assert Without(tokens, dead) == [tokens[0]] + Without(tokens[1..], dead);
        assert tokens == [tokens[0]] + tokens[1..];
      }
    }
  }

  // ------------------------------------------------------------ batching

  /** `for (i = 0; i < n; i += 500) chunks.push(all.slice(i, i + 500))` */
  function Batches(all: seq<Token>): seq<seq<Token>>
    decreases |all|
  {
    if all == [] then []
    else
      var n := Min(BatchLimit, |all|);
      [all[..n]] + Batches(all[n..])
  }

  function Flatten(batches: seq<seq<Token>>): seq<Token>
  {
    if batches == [] then [] else batches[0] + Flatten(batches[1..])
  }

  lemma {:induction false} FlattenAppend(batches: seq<seq<Token>>, b: seq<Token>)
    ensures Flatten(batches + [b]) == Flatten(batches) + b
  {
    if batches == [] {
      assert [] + [b] == [b];
      assert [b][1..] == [];
    } else {
      FlattenAppend(batches[1..], b);
      assert (batches + [b])[1..] == batches[1..] + [b];
    }
  }

  /** Every batch holds 1 to 500 tokens, every batch but the last exactly 500,
      and there are ceil(n / 500) of them. */
  lemma {:induction false} BatchesShape(all: seq<Token>)
    ensures forall k :: 0 <= k < |Batches(all)| ==> 1 <= |Batches(all)[k]| <= BatchLimit
    ensures forall k :: 0 <= k < |Batches(all)| - 1 ==> |Batches(all)[k]| == BatchLimit
    ensures |Batches(all)| == (|all| + BatchLimit - 1) / BatchLimit
    decreases |all|
  {
    if all != [] {
      var n := Min(BatchLimit, |all|);
      BatchesShape(all[n..]);
      var rest := Batches(all[n..]);
      assert Batches(all) == [all[..n]] + rest;
      assert forall k :: 1 <= k < |Batches(all)| ==> Batches(all)[k] == rest[k - 1];
      if n < BatchLimit {
        assert all[n..] == [];
      }
    }
  }

  /** The batches, put back together, are the list they were cut from. */
  lemma {:induction false} BatchesFlatten(all: seq<Token>)
    ensures Flatten(Batches(all)) == all
    decreases |all|
  {
    if all != [] {
      var n := Min(BatchLimit, |all|);
      BatchesFlatten(all[n..]);
      var bs := [all[..n]] + Batches(all[n..]);
      assert bs[0] == all[..n] && bs[1..] == Batches(all[n..]);
      assert all[..n] + all[n..] == all;
    }
  }

  // ------------------------------------------------------- all users at once

  /** `users.filter(u => u.fcmTokens.length > 0).map(u => {userId, tokens})`,
      with the users in the order the table lists them. */
  function ActiveEntries(order: seq<UserId>, table: map<UserId, seq<Token>>): seq<Entry>
    requires forall u :: u in order ==> u in table
  {
    if order == [] then []
    else
      var n := |order| - 1;
      var u := order[n];
      ActiveEntries(order[..n], table) + (if table[u] != [] then [Entry(u, table[u])] else [])
  }

  /** `entries.flatMap(e => e.tokens)` */
  function AllTokens(entries: seq<Entry>): seq<Token>
  {
    if entries == [] then [] else AllTokens(entries[..|entries| - 1]) + entries[|entries| - 1].tokens
  }

  /** Every user's tokens, users in table order, empty lists included. */
  function TableTokens(order: seq<UserId>, table: map<UserId, seq<Token>>): seq<Token>
    requires forall u :: u in order ==> u in table
  {
    if order == [] then [] else TableTokens(order[..|order| - 1], table) + table[order[|order| - 1]]
  }

  /** Dropping the users without tokens does not change the combined list. */
  lemma {:induction false} ActiveEntriesTokens(order: seq<UserId>, table: map<UserId, seq<Token>>)
    requires forall u :: u in order ==> u in table
    ensures AllTokens(ActiveEntries(order, table)) == TableTokens(order, table)
  {
    if order != [] {
      var n := |order| - 1;
      var u := order[n];
      ActiveEntriesTokens(order[..n], table);
      var front := ActiveEntries(order[..n], table);
      assert TableTokens(order, table) == TableTokens(order[..n], table) + table[u];
      if table[u] != [] {
        var es := front + [Entry(u, table[u])];
        assert ActiveEntries(order, table) == es;
        assert es[..|es| - 1] == front;
        assert AllTokens(es) == AllTokens(front) + table[u];
      } else {
        assert ActiveEntries(order, table) == front + [] == front;
        assert TableTokens(order, table) == TableTokens(order[..n], table);
      }
    }
  }

  /** The entries collected are exactly the users with a non-empty list, each with its whole list. */
  lemma {:induction false} ActiveEntriesMembers(order: seq<UserId>, table: map<UserId, seq<Token>>, e: Entry)
    requires forall u :: u in order ==> u in table
    ensures e in ActiveEntries(order, table) <==> e.userId in order && e.tokens == table[e.userId] && e.tokens != []
  {
    if order != [] {
      var n := |order| - 1;
      var u := order[n];
      ActiveEntriesMembers(order[..n], table, e);
      assert e.userId in order <==> e.userId in order[..n] || e.userId == u;
    }
  }

  /** The combined list is empty iff no user has a token. */
  lemma {:induction false} TableTokensEmpty(order: seq<UserId>, table: map<UserId, seq<Token>>)
    requires forall u :: u in order ==> u in table
    ensures TableTokens(order, table) == [] <==> forall u :: u in order ==> table[u] == []
  {
    if order != [] {
      var n := |order| - 1;
      TableTokensEmpty(order[..n], table);
      assert forall v :: v in order <==> v in order[..n] || v == order[n];
    }
  }

  /** FCM answered every batch with one reply per token. */
  predicate ReplyShape(batches: seq<seq<Token>>, replies: seq<seq<SendResponse>>)
  {
    |replies| == |batches| && forall k :: 0 <= k < |batches| ==> |replies[k]| == |batches[k]|
  }

  lemma ReplyShapePrefix(batches: seq<seq<Token>>, replies: seq<seq<SendResponse>>, n: nat)
    requires ReplyShape(batches, replies) && n <= |batches|
    ensures ReplyShape(batches[..n], replies[..n])
  {
  }

  function TotalSuccess(replies: seq<seq<SendResponse>>): nat
  {
    if replies == [] then 0 else TotalSuccess(replies[..|replies| - 1]) + SuccessCount(replies[|replies| - 1])
  }

  function TotalFailure(replies: seq<seq<SendResponse>>): nat
  {
    if replies == [] then 0 else TotalFailure(replies[..|replies| - 1]) + FailureCount(replies[|replies| - 1])
  }

  function FlattenReplies(replies: seq<seq<SendResponse>>): seq<SendResponse>
  {
    if replies == [] then [] else FlattenReplies(replies[..|replies| - 1]) + replies[|replies| - 1]
  }

  /** The totals are the counts over all replies of all batches. */
  lemma {:induction false} TotalsAreCounts(replies: seq<seq<SendResponse>>)
    ensures TotalSuccess(replies) == SuccessCount(FlattenReplies(replies))
    ensures TotalFailure(replies) == FailureCount(FlattenReplies(replies))
  {
    if replies != [] {
      var n := |replies| - 1;
      TotalsAreCounts(replies[..n]);
      CountsAppend(FlattenReplies(replies[..n]), replies[n]);
    }
  }

  lemma {:induction false} CountsAppend(a: seq<SendResponse>, b: seq<SendResponse>)
    ensures SuccessCount(a + b) == SuccessCount(a) + SuccessCount(b)
    ensures FailureCount(a + b) == FailureCount(a) + FailureCount(b)
  {
    if a == [] {
      assert a + b == b;
    } else {
      CountsAppend(a[1..], b);
      assert (a + b)[1..] == a[1..] + b;
    }
  }

  lemma {:induction false} FlattenRepliesLength(batches: seq<seq<Token>>, replies: seq<seq<SendResponse>>)
    requires ReplyShape(batches, replies)
    ensures |FlattenReplies(replies)| == |Flatten(batches)|
  {
    if batches != [] {
      var n := |batches| - 1;
      ReplyShapePrefix(batches, replies, n);
      FlattenRepliesLength(batches[..n], replies[..n]);
      FlattenAppend(batches[..n], batches[n]);
      assert batches[..n] + [batches[n]] == batches;
    }
  }

  /** One reply per token sent: the two totals add up to the number of tokens. */
  lemma TotalsAddUp(all: seq<Token>, replies: seq<seq<SendResponse>>)
    requires ReplyShape(Batches(all), replies)
    ensures TotalSuccess(replies) + TotalFailure(replies) == |all|
  {
    TotalsAreCounts(replies);
    CountsAddUp(FlattenReplies(replies));
    FlattenRepliesLength(Batches(all), replies);
    BatchesFlatten(all);
  }

  /** The dead tokens over all batches, as one set. */
  function DeadUnion(batches: seq<seq<Token>>, replies: seq<seq<SendResponse>>): set<Token>
    requires ReplyShape(batches, replies)
  {
    if batches == [] then {}
    else
      var n := |batches| - 1;
      ReplyShapePrefix(batches, replies, n);
      DeadUnion(batches[..n], replies[..n]) + DeadSet(batches[n], replies[n])
  }

  /** A token is dead iff it was sent in some batch and got a dead reply there. */
  lemma {:induction false} DeadUnionIff(batches: seq<seq<Token>>, replies: seq<seq<SendResponse>>, t: Token)
    requires ReplyShape(batches, replies)
    ensures t in DeadUnion(batches, replies)
        <==> exists k, i :: 0 <= k < |batches| && 0 <= i < |batches[k]| && batches[k][i] == t && IsDeadReply(replies[k][i])
  {
    if batches != [] {
      var n := |batches| - 1;
      ReplyShapePrefix(batches, replies, n);
      DeadUnionIff(batches[..n], replies[..n], t);
      DeadTokensIff(batches[n], replies[n], t);
      assert forall k :: 0 <= k < n ==> batches[..n][k] == batches[k] && replies[..n][k] == replies[k];
    }
  }

  /** Every user's list with the dead tokens removed. */
  function PrunedTable(table: map<UserId, seq<Token>>, dead: set<Token>): map<UserId, seq<Token>>
  {
    map u | u in table :: Without(table[u], dead)
  }

  /** After pruning, no list holds a dead token, the live ones stay in order,
      and a user keeps the very same list iff none of its tokens was dead. */
  lemma PrunedTableProperties(table: map<UserId, seq<Token>>, dead: set<Token>, u: UserId)
    requires u in table
    ensures u in PrunedTable(table, dead)
    ensures forall t :: t in PrunedTable(table, dead)[u] <==> t in table[u] && t !in dead
    ensures IsSubsequence(PrunedTable(table, dead)[u], table[u])
    ensures PrunedTable(table, dead)[u] == table[u] <==> forall t :: t in table[u] ==> t !in dead
  {
    forall t {
      WithoutMembers(table[u], dead, t);
    }
    WithoutSubsequence(table[u], dead);
    WithoutUnchanged(table[u], dead);
  }

  /** The effect of the update loop over the collected entries: each entry whose
      list loses a token is written back pruned, in entry order. */
  function Prune(table: map<UserId, seq<Token>>, entries: seq<Entry>, dead: set<Token>): map<UserId, seq<Token>>
  {
    if entries == [] then table
    else
      var e := entries[|entries| - 1];
      var rest := Prune(table, entries[..|entries| - 1], dead);
      var cleaned := Without(e.tokens, dead);
      if |cleaned| != |e.tokens| then rest[e.userId := cleaned] else rest
  }

  /** The users the update loop writes, in order. */
  function ChangedUsers(entries: seq<Entry>, dead: set<Token>): seq<UserId>
  {
    if entries == [] then []
    else
      var e := entries[|entries| - 1];
      ChangedUsers(entries[..|entries| - 1], dead)
        + (if |Without(e.tokens, dead)| != |e.tokens| then [e.userId] else [])
  }

  /** The table after the update loop over `order`'s users: those in `order` pruned, the rest as they were. */
  function PrunedWhere(table: map<UserId, seq<Token>>, order: seq<UserId>, dead: set<Token>): map<UserId, seq<Token>>
  {
    map u | u in table :: if u in order then Without(table[u], dead) else table[u]
  }

  /** One more user in the loop: its list is written back pruned if that shortens it. */
  lemma PrunedWhereStep(table: map<UserId, seq<Token>>, order: seq<UserId>, dead: set<Token>)
    requires order != [] && order[|order| - 1] in table
    ensures var u := order[|order| - 1];
            var rest := PrunedWhere(table, order[..|order| - 1], dead);
            var cleaned := Without(table[u], dead);
            PrunedWhere(table, order, dead) == if |cleaned| != |table[u]| then rest[u := cleaned] else rest
  {
    var u := order[|order| - 1];
    WithoutUnchanged(table[u], dead);
    assert forall v :: v in order <==> v in order[..|order| - 1] || v == u;
  }

  /** Writing back only the lists that got shorter prunes every user of the
      order: a list that keeps its length had nothing to remove. */
  lemma {:induction false} PruneAll(table: map<UserId, seq<Token>>, order: seq<UserId>, dead: set<Token>)
    requires forall u :: u in order ==> u in table
    ensures Prune(table, ActiveEntries(order, table), dead) == PrunedWhere(table, order, dead)
  {
    if order == [] {
    } else {
      var n := |order| - 1;
      var u := order[n];
      PruneAll(table, order[..n], dead);
      PrunedWhereStep(table, order, dead);
      var front := ActiveEntries(order[..n], table);
      if table[u] != [] {
        var es := front + [Entry(u, table[u])];
        assert ActiveEntries(order, table) == es;
        assert es[..|es| - 1] == front;
      } else {
        assert ActiveEntries(order, table) == front + [] == front;
      }
    }
  }

  /** When the table order lists every user, the loop prunes the whole table. */
  lemma PruneTable(table: map<UserId, seq<Token>>, order: seq<UserId>, dead: set<Token>)
    requires forall u :: u in order <==> u in table
    ensures Prune(table, ActiveEntries(order, table), dead) == PrunedTable(table, dead)
  {
    PruneAll(table, order, dead);
  }

  /** A user is written back iff its list holds a dead token. */
  lemma {:induction false} ChangedUsersIff(order: seq<UserId>, table: map<UserId, seq<Token>>, dead: set<Token>, u: UserId)
    requires forall v :: v in order ==> v in table
    ensures u in ChangedUsers(ActiveEntries(order, table), dead)
        <==> u in order && exists t :: t in table[u] && t in dead
  {
    if order != [] {
      var n := |order| - 1;
      var v := order[n];
      ChangedUsersIff(order[..n], table, dead, u);
      var front := ActiveEntries(order[..n], table);
      WithoutUnchanged(table[v], dead);
      assert u in order <==> u in order[..n] || u == v;
      if table[v] != [] {
        var es := front + [Entry(v, table[v])];
        assert ActiveEntries(order, table) == es;
        assert es[..|es| - 1] == front;
      } else {
        assert ActiveEntries(order, table) == front + [] == front;
      }
    }
  }

  /** With nothing dead, pruning changes no list and writes no user back. */
  lemma NothingDead(table: map<UserId, seq<Token>>, order: seq<UserId>)
    requires forall u :: u in order ==> u in table
    ensures PrunedTable(table, {}) == table
    ensures ChangedUsers(ActiveEntries(order, table), {}) == []
  {
    forall u | u in table
      ensures Without(table[u], {}) == table[u]
    {
      WithoutUnchanged(table[u], {});
    }
    var changed := ChangedUsers(ActiveEntries(order, table), {});
    if changed != [] {
      ChangedUsersIff(order, table, {}, changed[0]);
      assert false;
    }
  }

  /** For one user's send: a token survives iff it is stored and no position
      holding it got a dead reply; successful tokens and other failures keep it. */
  lemma SingleUserSurvivors(own: seq<Token>, replies: seq<SendResponse>, t: Token)
    requires |replies| == |own|
    ensures t in Without(own, DeadSet(own, replies))
        <==> t in own && forall i :: 0 <= i < |own| && own[i] == t ==> !IsDeadReply(replies[i])
  {
    WithoutMembers(own, DeadSet(own, replies), t);
    DeadTokensIff(own, replies, t);
  }

  // ---------------------------------------------------------------- methods

  /** The `forEach` over one multicast's replies: the token at the index of
      each dead reply, in order. */
  method CollectInvalid(tokens: seq<Token>, replies: seq<SendResponse>) returns (invalid: seq<Token>)
    requires |replies| == |tokens|
    ensures invalid == DeadTokens(tokens, replies)
  {
    invalid := [];
    var i := 0;
    while i < |replies|
      invariant 0 <= i <= |replies|
      invariant invalid == DeadTokens(tokens[..i], replies[..i])
    {
      if !replies[i].success {
        var errorCode := replies[i].errorCode;
        if errorCode == Some(NotRegistered) || errorCode == Some(InvalidRegistration) {
          invalid := invalid + [tokens[i]];
        }
      }
      assert tokens[..i + 1][..i] == tokens[..i] && replies[..i + 1][..i] == replies[..i];
      i := i + 1;
    }
    assert tokens[..i] == tokens && replies[..i] == replies;
  }

  /** The chunking loop: slices of 500 from the start, the last one shorter. */
  method SplitIntoBatches(all: seq<Token>) returns (chunks: seq<seq<Token>>)
    ensures chunks == Batches(all)
  {
    chunks := [];
    var i := 0;
    while i < |all|
      invariant 0 <= i
      invariant chunks + Batches(all[Min(i, |all|)..]) == Batches(all)
    {
      var end := Min(i + BatchLimit, |all|);
      var rest := all[i..];
      var n := Min(BatchLimit, |rest|);
      assert Batches(rest) == [rest[..n]] + Batches(rest[n..]);
      assert rest[..n] == all[i..end] && rest[n..] == all[end..];
      chunks := chunks + [all[i..end]];
      i := i + BatchLimit;
      assert all[Min(i, |all|)..] == all[end..];
    }
  }

  /** The send loop over the chunks: running totals of the counts, and the
      set of dead tokens over all chunks. */
  method SendBatches(batches: seq<seq<Token>>, replies: seq<seq<SendResponse>>)
    returns (successCount: nat, failureCount: nat, invalid: set<Token>)
    requires ReplyShape(batches, replies)
    ensures successCount == TotalSuccess(replies) && failureCount == TotalFailure(replies)
    ensures invalid == DeadUnion(batches, replies)
  {
    successCount, failureCount, invalid := 0, 0, {};
    var k := 0;
    while k < |batches|
      invariant 0 <= k <= |batches|
      invariant ReplyShape(batches[..k], replies[..k])
      invariant successCount == TotalSuccess(replies[..k]) && failureCount == TotalFailure(replies[..k])
      invariant invalid == DeadUnion(batches[..k], replies[..k])
    {
      successCount := successCount + SuccessCount(replies[k]);
      failureCount := failureCount + FailureCount(replies[k]);
      var found := CollectInvalid(batches[k], replies[k]);
      invalid := invalid + set t | t in found;
      assert batches[..k + 1][..k] == batches[..k] && replies[..k + 1][..k] == replies[..k];
      ReplyShapePrefix(batches, replies, k + 1);
      k := k + 1;
    }
    assert batches[..k] == batches && replies[..k] == replies;
  }

  /** The `fcmTokens` column of the user table, with a log of the
      `prisma.user.update` calls the sends issue, one user id per call. */
  class TokenStore {
    var tokens: map<UserId, seq<Token>>
    var updateLog: seq<UserId>

    constructor(initial: map<UserId, seq<Token>>)
      ensures tokens == initial && updateLog == []
    {
      tokens := initial;
      updateLog := [];
    }

    /** `sendPushNotification`: `replies` is FCM's answer to the multicast
        of the user's tokens. */
    method SendToUser(userId: UserId, replies: seq<SendResponse>) returns (r: Result<Counts, ApiError>)
      modifies this
      requires userId in tokens ==> |replies| == |tokens[userId]|
      ensures userId !in old(tokens) ==>
                r == Err(ApiError(NotFound, "User not found")) && tokens == old(tokens) && updateLog == old(updateLog)
      ensures userId in old(tokens) && old(tokens)[userId] == [] ==>
                r == Err(ApiError(BadRequest, "User has no FCM tokens"))
                && tokens == old(tokens) && updateLog == old(updateLog)
      ensures userId in old(tokens) && old(tokens)[userId] != [] ==>
                var own := old(tokens)[userId];
                && r == Ok(Counts(SuccessCount(replies), FailureCount(replies)))
                && (DeadTokens(own, replies) == [] ==> tokens == old(tokens) && updateLog == old(updateLog))
                && (DeadTokens(own, replies) != [] ==>
                      tokens == old(tokens)[userId := Without(own, DeadSet(own, replies))]
                      && updateLog == old(updateLog) + [userId])
    {
      if userId !in tokens {
        return Err(ApiError(NotFound, "User not found"));
      }
      var own := tokens[userId];
      if own == [] {
        return Err(ApiError(BadRequest, "User has no FCM tokens"));
      }
      var invalid := CollectInvalid(own, replies);
      if |invalid| > 0 {
        tokens := tokens[userId := Without(own, set t | t in invalid)];
        updateLog := updateLog + [userId];
      }
      r := Ok(Counts(SuccessCount(replies), FailureCount(replies)));
    }

    /** `sendPushNotificationToAllUsers`: `order` is the order in which the
        table lists its users, `replies` FCM's answers to the chunks in turn. */
    method SendToAllUsers(order: seq<UserId>, replies: seq<seq<SendResponse>>) returns (r: Result<Counts, ApiError>)
      modifies this
      requires forall u :: u in order <==> u in tokens
      requires ReplyShape(Batches(AllTokens(ActiveEntries(order, tokens))), replies)
      ensures var entries := ActiveEntries(order, old(tokens));
              var all := AllTokens(entries);
              var dead := DeadUnion(Batches(all), replies);
              && (all == [] ==>
                    r == Err(ApiError(BadRequest, "No FCM tokens found for any user"))
                    && tokens == old(tokens) && updateLog == old(updateLog))
              && (all != [] ==>
                    r == Ok(Counts(TotalSuccess(replies), TotalFailure(replies)))
                    && tokens == PrunedTable(old(tokens), dead)
                    && updateLog == old(updateLog) + ChangedUsers(entries, dead))
    {
      var entries := ActiveEntries(order, tokens);
      var all := AllTokens(entries);
      if all == [] {
        return Err(ApiError(BadRequest, "No FCM tokens found for any user"));
      }
      var chunks := SplitIntoBatches(all);
      var successCount, failureCount, invalid := SendBatches(chunks, replies);
      ghost var table := tokens;
      if invalid != {} {
        PruneUsers(entries, invalid);
        PruneTable(table, order, invalid);
      } else {
        NothingDead(table, order);
      }
      r := Ok(Counts(successCount, failureCount));
    }

    /** The update loop of the bulk send: each collected user whose list
        loses a token gets the pruned list written back. */
    method PruneUsers(entries: seq<Entry>, invalid: set<Token>)
      modifies this
      ensures tokens == Prune(old(tokens), entries, invalid)
      ensures updateLog == old(updateLog) + ChangedUsers(entries, invalid)
    {
      var k := 0;
      while k < |entries|
        invariant 0 <= k <= |entries|
        invariant tokens == Prune(old(tokens), entries[..k], invalid)
        invariant updateLog == old(updateLog) + ChangedUsers(entries[..k], invalid)
      {
        var e := entries[k];
        var cleaned := Without(e.tokens, invalid);
        if |cleaned| != |e.tokens| {
          tokens := tokens[e.userId := cleaned];
          updateLog := updateLog + [e.userId];
        }
        assert entries[..k + 1][..k] == entries[..k];
        k := k + 1;
      }
      assert entries[..k] == entries;
    }
  }
}
