/**
 * `role_mention_handler` (roledistributor.py:604-644): every plain-text
 * message is scanned for `@word` tokens; each token, case-folded, is looked
 * up once as a role, and the holders of all matched roles are mentioned in a
 * single reply.
 */
module Mentions {
  import opened Wrappers
  import opened Seqs
  import opened Text
  import opened Table
  import opened RoleStore

  function FoldAll(ts: seq<string>): (r: seq<string>)
    ensures |r| == |ts| && forall i :: 0 <= i < |ts| ==> r[i] == Fold(ts[i])
  {
    seq(|ts|, i requires 0 <= i < |ts| => Fold(ts[i]))
  }

  /** `[f'@{u}' for u in users]` */
  function AtAll(users: seq<string>): (r: seq<string>)
    ensures |r| == |users| && forall i :: 0 <= i < |users| ==> r[i] == "@" + users[i]
  {
    seq(|users|, i requires 0 <= i < |users| => "@" + users[i])
  }

  /** The mentions of every holder of a role whose folded form is one of `keys`. */
  ghost function MentionsFor(rows: seq<Row>, keys: seq<string>): set<string> {
    set x | x in rows && Fold(x.role) in keys :: "@" + x.username
  }

  /** Some token of the message names the row's role, ignoring case. */
  ghost predicate Named(x: Row, tokens: seq<string>) {
    exists t :: t in tokens && Fold(t) == Fold(x.role)
  }

  lemma MentionsExtend(rows: seq<Row>, keys: seq<string>, key: string, users: seq<string>)
    requires forall u :: u in users <==> exists x :: x in rows && x.username == u && Fold(x.role) == key
    ensures forall m :: m in MentionsFor(rows, keys + [key]) <==> m in MentionsFor(rows, keys) || m in AtAll(users)
  {
    var at := AtAll(users);
    forall m ensures m in MentionsFor(rows, keys + [key]) <==> m in MentionsFor(rows, keys) || m in at {
      if m in at {
        var i :| 0 <= i < |at| && at[i] == m;
        assert users[i] in users;
        var x :| x in rows && x.username == users[i] && Fold(x.role) == key;
        assert Fold(x.role) in keys + [key];
      }
      if m in MentionsFor(rows, keys + [key]) && m !in MentionsFor(rows, keys) {
        var x :| x in rows && Fold(x.role) in keys + [key] && m == "@" + x.username;
        assert Fold(x.role) == key;
        assert x.username in users;
        var i :| 0 <= i < |users| && users[i] == x.username;
        assert at[i] == m;
      }
    }
  }

  /** The folded keys of a message are exactly the folds of its tokens. */
  lemma KeysOfTokens(tokens: seq<string>)
    ensures forall k :: k in Dedup(FoldAll(tokens)) <==> exists t :: t in tokens && Fold(t) == k
  {
    var f := FoldAll(tokens);
    forall k ensures k in f <==> exists t :: t in tokens && Fold(t) == k {
      if k in f {
        var i :| 0 <= i < |f| && f[i] == k;
        assert tokens[i] in tokens;
      }
      if exists t :: t in tokens && Fold(t) == k {
        var t :| t in tokens && Fold(t) == k;
        var i :| 0 <= i < |tokens| && tokens[i] == t;
        assert f[i] == k;
      }
    }
  }

  /** Looking up the folded keys mentions exactly the holders of a role some token names. */
  lemma MentionsForTokens(rows: seq<Row>, tokens: seq<string>)
    ensures forall m :: m in MentionsFor(rows, Dedup(FoldAll(tokens))) <==>
      exists x :: x in rows && Named(x, tokens) && m == "@" + x.username
    ensures MentionsFor(rows, Dedup(FoldAll(tokens))) == {} <==> forall x :: x in rows ==> !Named(x, tokens)
  {
    KeysOfTokens(tokens);
    var keys := Dedup(FoldAll(tokens));
    assert forall x :: x in rows ==> (Named(x, tokens) <==> Fold(x.role) in keys);
    forall x | x in rows && Named(x, tokens) ensures "@" + x.username in MentionsFor(rows, keys) {
    }
  }

  lemma FoldAllSnoc(tokens: seq<string>, i: nat)
    requires i < |tokens|
    ensures FoldAll(tokens[..i + 1]) == FoldAll(tokens[..i]) + [Fold(tokens[i])]
  {
  }

  lemma DedupSnoc(s: seq<string>, x: string)
    ensures Dedup(s + [x]) == if x in Dedup(s) then Dedup(s) else Dedup(s) + [x]
  {
    assert (s + [x])[..|s|] == s;
  }

  lemma EmptyIffNoMember<T>(s: seq<T>, t: set<T>)
    requires forall m :: m in s <==> m in t
    ensures s == [] <==> t == {}
  {
    if s != [] {
      assert s[0] in t;
    }
  }

  /**
   * The handler's loop. `lookups` are the folded role names queried, in
   * order; `reply` is the text sent (its words in some order), or `None`
   * when nothing is sent.
   */
  method ResolveMentions(store: Store, text: string) returns (lookups: seq<string>, reply: Option<seq<string>>)
    ensures lookups == Dedup(FoldAll(FindMentions(text)))
    ensures NoDup(lookups)
    ensures forall k :: k in lookups <==> exists t :: t in FindMentions(text) && Fold(t) == k
    ensures reply.None? <==> forall x :: x in store.rows ==> !Named(x, FindMentions(text))
    ensures reply.Some? ==> NoDup(reply.value)
    ensures reply.Some? ==> forall m :: m in reply.value <==>
      exists x :: x in store.rows && Named(x, FindMentions(text)) && m == "@" + x.username
  {
    var tokens := FindMentions(text);
    lookups, reply := [], None;
    var all: seq<string> := [];
    if tokens != [] {
      var processed: set<string> := {};
      var i := 0;
      while i < |tokens|
        invariant 0 <= i <= |tokens|
        invariant lookups == Dedup(FoldAll(tokens[..i]))
        invariant forall k :: k in processed <==> k in lookups
        invariant forall m :: m in all <==> m in MentionsFor(store.rows, lookups)
      {
        var key := Fold(tokens[i]);
        FoldAllSnoc(tokens, i);
        DedupSnoc(FoldAll(tokens[..i]), key);
        if key !in processed {
          processed := processed + {key};
          var users := store.SelectUsersWithFoldedRole(key);
          MentionsExtend(store.rows, lookups, key, users);
          all := all + AtAll(users);
          lookups := lookups + [key];
        }
        i := i + 1;
      }
      assert tokens[..|tokens|] == tokens;
      if all != [] {
        reply := Some(Dedup(all));
      }
    }
    KeysOfTokens(tokens);
    MentionsForTokens(store.rows, tokens);
    EmptyIffNoMember(all, MentionsFor(store.rows, lookups));
  }
}
