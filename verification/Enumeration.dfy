/** getAssertion followed by getNextAssertion calls goes through every matching credential exactly once, most
    recently used first, and is then refused. */
module Enumeration {
  import opened Bytes
  import opened Statuses
  import opened StoreCodec
  import opened Store
  import opened World
  import opened Authenticator
  import opened RunsCounters

  /** The stored rows a request is about. */
  ghost predicate Matches(row: Credential, rpIdHash: seq<Byte>, list: seq<Descriptor>) {
    row.rpIdHash == rpIdHash
    && if list == [] then row.rk else exists x <- list :: x.isPublicKey && x.id == row.credId
  }

  // ---------------------------------------------------------------- the candidates

  lemma {:induction false} FindFinds(rows: seq<Credential>, row: Credential, rpIdHash: seq<Byte>)
    requires DistinctIds(rows) && row in rows && row.rpIdHash == rpIdHash
    ensures Find(rows, rpIdHash, row.credId) == Some(row)
  {
    if rows[0] != row {
      assert rows == [rows[0]] + rows[1..];
      var i :| 0 <= i < |rows| && rows[i] == row;
      assert rows[0].credId != row.credId;
      FindFinds(rows[1..], row, rpIdHash);
    }
  }

  /** What Listed has found after one more descriptor. */
  ghost function FoundWith(rows: seq<Credential>, rpIdHash: seq<Byte>, x: Descriptor,
                           found: seq<Credential>): seq<Credential> {
    var c := if x.isPublicKey then Find(rows, rpIdHash, x.id) else None;
    if c.None? || (exists e <- found :: e.credId == c.value.credId) then found else found + [c.value]
  }

  lemma ListedStep(rows: seq<Credential>, rpIdHash: seq<Byte>, list: seq<Descriptor>, found: seq<Credential>)
    requires list != []
    ensures Listed(rows, rpIdHash, list, found)
            == Listed(rows, rpIdHash, list[1..], FoundWith(rows, rpIdHash, list[0], found))
  {
    hide Find;
  }

  lemma FoundWithRows(rows: seq<Credential>, rpIdHash: seq<Byte>, x: Descriptor, found: seq<Credential>)
    requires DistinctIds(rows) && DistinctIds(found) && forall c <- found :: c in rows && c.rpIdHash == rpIdHash
    ensures var found' := FoundWith(rows, rpIdHash, x, found);
            && DistinctIds(found')
            && (forall c <- found :: c in found')
            && (forall c <- found' ::
                 c in rows && c.rpIdHash == rpIdHash && (c in found || (x.isPublicKey && x.id == c.credId)))
  {
    hide Find;
    FindIsRow(rows, rpIdHash, x.id);
  }

  lemma FoundWithAll(rows: seq<Credential>, rpIdHash: seq<Byte>, x: Descriptor, found: seq<Credential>)
    requires DistinctIds(rows) && forall c <- found :: c in rows
    ensures forall row <- rows ::
              row.rpIdHash == rpIdHash && x.isPublicKey && x.id == row.credId
              ==> row in FoundWith(rows, rpIdHash, x, found)
  {
    hide Find, DistinctIds;
    forall row | row in rows && row.rpIdHash == rpIdHash && x.isPublicKey && x.id == row.credId
      ensures row in FoundWith(rows, rpIdHash, x, found)
    {
      FindFinds(rows, row, rpIdHash);
      NowFound(rows, row, found);
    }
  }

  lemma NowFound(rows: seq<Credential>, row: Credential, found: seq<Credential>)
    requires DistinctIds(rows) && row in rows && forall c <- found :: c in rows
    ensures row in if exists e <- found :: e.credId == row.credId then found else found + [row]
  {
    if e :| e in found && e.credId == row.credId {
      SameIdSameRow(rows, e, row);
    } else {
      assert (found + [row])[|found|] == row;
    }
  }

  lemma {:induction false} ListedComplete(rows: seq<Credential>, rpIdHash: seq<Byte>, list: seq<Descriptor>,
                                          found: seq<Credential>)
    requires DistinctIds(rows) && DistinctIds(found) && forall c <- found :: c in rows && c.rpIdHash == rpIdHash
    ensures var r := Listed(rows, rpIdHash, list, found);
            (forall c <- found :: c in r)
            && (forall c <- r ::
                  && c in rows && c.rpIdHash == rpIdHash
                  && (c in found || exists x <- list :: x.isPublicKey && x.id == c.credId))
            && (forall row <- rows ::
                  row.rpIdHash == rpIdHash && (exists x <- list :: x.isPublicKey && x.id == row.credId) ==> row in r)
    decreases |list|
  {
    hide Find, DistinctIds, FoundWith;
    if list != [] {
      var x := list[0];
      assert list == [x] + list[1..];
      ListedStep(rows, rpIdHash, list, found);
      FoundWithRows(rows, rpIdHash, x, found);
      FoundWithAll(rows, rpIdHash, x, found);
      hide Listed;
      ListedComplete(rows, rpIdHash, list[1..], FoundWith(rows, rpIdHash, x, found));
    }
  }

  /** The candidates are exactly the matching rows, each once. */
  lemma CandidatesMatch(rows: seq<Credential>, rpIdHash: seq<Byte>, list: seq<Descriptor>)
    requires DistinctIds(rows)
    ensures var r := Candidates(rows, rpIdHash, list);
            DistinctIds(r) && forall row :: row in r <==> row in rows && Matches(row, rpIdHash, list)
  {
    hide FindByRp, Listed, DistinctIds;
    CandidatesRows(rows, rpIdHash, list);
    FindByRpRows(rows, rpIdHash);
    assert DistinctIds([]) by { NoIds(); }
    ListedComplete(rows, rpIdHash, list, []);
  }

  lemma NoIds()
    ensures DistinctIds([])
  {
  }

  // ---------------------------------------------------------------- the order

  ghost predicate NewestFirst(cs: seq<Credential>) {
    forall i, j :: 0 <= i < j < |cs| ==> !Before(cs[j], cs[i])
  }

  lemma NewestFirstCons(c: Credential, cs: seq<Credential>)
    requires NewestFirst(cs) && forall x <- cs :: !Before(x, c)
    ensures NewestFirst([c] + cs)
  {
    hide Before;
  }

  lemma AfterHead(cs: seq<Credential>)
    requires NewestFirst(cs) && cs != []
    ensures NewestFirst(cs[1..]) && forall x <- cs[1..] :: !Before(x, cs[0])
  {
    hide Before;
    forall x | x in cs[1..] ensures !Before(x, cs[0]) {
      var j :| 0 <= j < |cs| - 1 && cs[1..][j] == x;
      assert cs[j + 1] == x;
    }
  }

  lemma InsertMembers(c: Credential, cs: seq<Credential>)
    ensures forall x :: x in InsertByUse(c, cs) <==> x == c || x in cs
  {
    hide InsertByUse;
    forall x ensures x in InsertByUse(c, cs) <==> x == c || x in cs {
      assert x in InsertByUse(c, cs) <==> x in multiset(InsertByUse(c, cs));
      assert x in cs <==> x in multiset(cs);
    }
  }

  lemma {:induction false} InsertOrdered(c: Credential, cs: seq<Credential>)
    requires NewestFirst(cs)
    ensures NewestFirst(InsertByUse(c, cs))
  {
    hide NewestFirst;
    if cs == [] {
      OneOrdered(c);
    } else {
      AfterHead(cs);
      assert cs == [cs[0]] + cs[1..];
      if Before(cs[0], c) {
        InsertOrdered(c, cs[1..]);
        InsertMembers(c, cs[1..]);
        NewestFirstCons(cs[0], InsertByUse(c, cs[1..]));
      } else {
        NewestFirstCons(c, cs);
      }
    }
  }

  lemma OneOrdered(c: Credential)
    ensures NewestFirst([c]) && NewestFirst([])
  {
  }

  lemma {:induction false} SortOrdered(cs: seq<Credential>)
    ensures NewestFirst(SortByUse(cs))
  {
    hide InsertByUse, Before;
    if cs == [] {
    } else {
      SortOrdered(cs[1..]);
      InsertOrdered(cs[0], SortByUse(cs[1..]));
    }
  }

  // ---------------------------------------------------------------- the calls

  /** The authenticator after getNextAssertion calls, and the rows they tried to assert. */
  function NextCalls(a: Auth, ws: seq<World>): (Auth, seq<Credential>)
    decreases |ws|
  {
    if ws == [] then (a, [])
    else
      var tried := if a.stash.Some? && a.stash.value.remaining != [] && ws[0].now <= a.stash.value.expiry
                   then [a.stash.value.remaining[0]] else [];
      var (b, more) := NextCalls(GetNextAssertion(a, ws[0]).a, ws[1..]);
      (b, tried + more)
  }

  lemma {:induction false} CallsGoOn(a: Auth, ws: seq<World>)
    requires a.stash.Some? && a.stash.value.remaining != [] && |ws| == |a.stash.value.remaining|
    requires forall i :: 0 <= i < |ws| ==> ws[i].now <= a.stash.value.expiry
    ensures NextCalls(a, ws).1 == a.stash.value.remaining && NextCalls(a, ws).0.stash == None
    decreases |ws|
  {
    hide BuildAssertion;
    var s := a.stash.value;
    var a1 := GetNextAssertion(a, ws[0]).a;
    assert s.remaining == [s.remaining[0]] + s.remaining[1..];
    if |ws| > 1 {
      assert a1.stash == Some(s.(remaining := s.remaining[1..]));
      CallsGoOn(a1, ws[1..]);
    } else {
      assert NextCalls(a1, ws[1..]) == (a1, []);
    }
  }

  /** One getNextAssertion call either hands out the assertion of the row it tried or reports an error about it. */
  lemma TriedOrNotAllowed(a: Auth, w: World)
    ensures var o := GetNextAssertion(a, w);
            if a.stash.Some? && a.stash.value.remaining != [] && w.now <= a.stash.value.expiry
            then o.r.Success? ==> o.r.value.credId == a.stash.value.remaining[0].credId
            else o.r == Failure(NotAllowed) && o.a.stash == None && o.a.d == a.d
  {
    hide UpdateCountAndUsed;
  }

  /** After a successful getAssertion, getNextAssertion calls before the expiry try, together with it, every
      matching stored row exactly once, newest use first and newest row first among equals, however often the
      allowList repeats an id; the next call is refused. */
  lemma EnumeratesAll(c: Crypto, a: Auth, q: AssertionRequest, w: World, ws: seq<World>, last: World)
    requires StoreInv(a.d) && GetAssertion(c, a, q, w).r.Success?
    requires var o := GetAssertion(c, a, q, w);
             |ws| == if o.a.stash.Some? then |o.a.stash.value.remaining| else 0
    requires forall i :: 0 <= i < |ws| ==> ws[i].now <= w.now + USER_ACTION_TIMEOUT
    ensures var o := GetAssertion(c, a, q, w);
            var (b, more) := NextCalls(o.a, ws);
            exists first ::
              var all := [first] + more;
              && o.r.value.credId == first.credId
              && DistinctIds(all) && NewestFirst(all)
              && (forall row :: row in all <==> row in a.d.mem.creds && Matches(row, c.sha256(q.rpId), q.allowList))
              && o.r.value.total == (if |all| > 1 then Some(|all|) else None)
              && GetNextAssertion(b, last).r == Failure(NotAllowed)
  {
    hide *;
    var rows := Candidates(a.d.mem.creds, c.sha256(q.rpId), q.allowList);
    var sorted := SortByUse(rows);
    StoreIds(a.d);
    CandidatesMatch(a.d.mem.creds, c.sha256(q.rpId), q.allowList);
    SortedRows(rows);
    SortOrdered(rows);
    FirstAsserted(c, a, q, w);
    var o := GetAssertion(c, a, q, w);
    TriesAll(o.a, sorted, ws, w.now + USER_ACTION_TIMEOUT);
    var (b, more) := NextCalls(o.a, ws);
    TriedOrNotAllowed(b, last);
    assert [sorted[0]] + more == sorted;
    assert o.r.value.credId == sorted[0].credId;
  }

  /** The calls after the first assertion try the rest of the sorted candidates. */
  lemma TriesAll(a: Auth, sorted: seq<Credential>, ws: seq<World>, expiry: int)
    requires sorted != [] && |ws| == (if a.stash.Some? then |a.stash.value.remaining| else 0)
    requires forall i :: 0 <= i < |ws| ==> ws[i].now <= expiry
    requires if |sorted| > 1
             then a.stash.Some? && a.stash.value.remaining == sorted[1..] && a.stash.value.expiry == expiry
             else a.stash.None?
    ensures [sorted[0]] + NextCalls(a, ws).1 == sorted && NextCalls(a, ws).0.stash == None
  {
    hide *;
    if a.stash.Some? {
      CallsGoOn(a, ws);
    } else {
      NoCalls(a);
    }
  }

  lemma NoCalls(a: Auth)
    ensures NextCalls(a, []) == (a, [])
  {
  }

  lemma FirstAsserted(c: Crypto, a: Auth, q: AssertionRequest, w: World)
    requires GetAssertion(c, a, q, w).r.Success?
    ensures var o := GetAssertion(c, a, q, w);
            var sorted := SortByUse(Candidates(a.d.mem.creds, c.sha256(q.rpId), q.allowList));
            sorted != [] && o.r.value.credId == sorted[0].credId
            && o.r.value.total == (if |sorted| > 1 then Some(|sorted|) else None)
            && (if |sorted| > 1 then o.a.stash.Some? && o.a.stash.value.remaining == sorted[1..]
                                     && o.a.stash.value.expiry == w.now + USER_ACTION_TIMEOUT
                else o.a.stash.None?)
  {
    hide CheckPinAuth, Candidates, UpdateCountAndUsed, SortByUse;
  }
}
