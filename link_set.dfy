/**
 * The link set of a routing node: a list of link records, headed by a
 * sentinel, that the node builds once and then searches, updates and
 * shrinks by link name.
 *
 * The circular doubly-linked list whose head is the global g_ls is
 * modelled as a sentinel record plus the sequence of the records in list
 * order, starting at g_ls->next; a pointer to a record is its position in
 * that sequence.
 */
module LinkSet {

  import opened Wrappers

  /** One link record: its two end nodes and ports, its cost, its name and the sockets bound for it. */
  datatype Link = Link(
    peer0: int, port0: int,
    peer1: int, port1: int,
    c: int,
    name: Option<string>,
    sockfd0: int, sockfd1: int)

  /** Some record in links carries the name n. */
  predicate HasLink(links: seq<Link>, n: string) {
    exists k :: 0 <= k < |links| && links[k].name == Some(n)
  }

  /** The position of the first record named n, in list order; None when there is none. */
  function FirstNamed(links: seq<Link>, n: string): (r: Option<nat>)
    ensures r.Some? ==> r.value < |links| && links[r.value].name == Some(n)
    ensures r.Some? ==> forall j :: 0 <= j < r.value ==> links[j].name != Some(n)
    ensures r.None? <==> !HasLink(links, n)
  {
    if links == [] then None
    else if links[0].name == Some(n) then Some(0)
    else
      match FirstNamed(links[1..], n)
      case None =>
        assert forall k :: 1 <= k < |links| ==> links[k] == links[1..][k - 1];
        None
      case Some(i) =>
        assert links[i + 1] == links[1..][i];
        assert forall j :: 1 <= j < i + 1 ==> links[j] == links[1..][j - 1];
        Some(i + 1)
  }

  /** The number of records named n. */
  function CountNamed(links: seq<Link>, n: string): nat {
    if links == [] then 0
    else CountNamed(links[..|links| - 1], n) + (if links[|links| - 1].name == Some(n) then 1 else 0)
  }

  lemma {:induction false} CountNamedAppend(a: seq<Link>, b: seq<Link>, n: string)
    ensures CountNamed(a + b, n) == CountNamed(a, n) + CountNamed(b, n)
    decreases |b|
  {
    if b == [] {
      assert a + b == a;
    } else {
      var init := b[..|b| - 1];
      assert (a + b)[..|a + b| - 1] == a + init;
      assert (a + b)[|a + b| - 1] == b[|b| - 1];
      CountNamedAppend(a, init, n);
    }
  }

  /** A name is present exactly when it is counted at least once. */
  lemma {:induction false} HasLinkIffCounted(links: seq<Link>, n: string)
    ensures HasLink(links, n) <==> CountNamed(links, n) > 0
    decreases |links|
  {
    if links != [] {
      var init := links[..|links| - 1];
      HasLinkIffCounted(init, n);
      if HasLink(init, n) {
        var k :| 0 <= k < |init| && init[k].name == Some(n);
        assert links[k] == init[k];
      }
      if HasLink(links, n) && links[|links| - 1].name != Some(n) {
        var k :| 0 <= k < |links| && links[k].name == Some(n);
        assert init[k] == links[k];
      }
    }
  }

  /** Splicing record l in at position k adds one to the count of l's name and leaves every other count alone. */
  lemma InsertCounts(links: seq<Link>, k: nat, l: Link, m: string)
    requires k <= |links|
    ensures CountNamed(links[..k] + [l] + links[k..], m)
         == CountNamed(links, m) + (if l.name == Some(m) then 1 else 0)
  {
    assert links == links[..k] + links[k..];
    CountNamedAppend(links[..k], links[k..], m);
    CountNamedAppend(links[..k], [l], m);
    CountNamedAppend(links[..k] + [l], links[k..], m);
    assert [l][..0] == [];
  }

  /** Unlinking the record at position k takes one off the count of its name and leaves every other count alone. */
  lemma RemoveCounts(links: seq<Link>, k: nat, m: string)
    requires k < |links|
    ensures CountNamed(links[..k] + links[k + 1..], m)
         == CountNamed(links, m) - (if links[k].name == Some(m) then 1 else 0)
  {
    InsertCounts(links[..k] + links[k + 1..], k, links[k], m);
    assert (links[..k] + links[k + 1..])[..k] == links[..k];
    assert (links[..k] + links[k + 1..])[k..] == links[k + 1..];
    assert links[..k] + [links[k]] + links[k + 1..] == links;
  }

  /** Overwriting a record's cost changes no name, so every search by name finds the same position. */
  lemma {:induction false} UpdateKeepsSearch(links: seq<Link>, k: nat, cost: int, m: string)
    requires k < |links|
    ensures FirstNamed(links[k := links[k].(c := cost)], m) == FirstNamed(links, m)
    decreases |links|
  {
    var updated := links[k := links[k].(c := cost)];
    if links[0].name != Some(m) {
      if k == 0 {
        assert updated[1..] == links[1..];
      } else {
        assert updated[1..] == links[1..][k - 1 := links[k].(c := cost)];
        UpdateKeepsSearch(links[1..], k - 1, cost, m);
      }
    }
  }

  /** After a record named n is spliced in anywhere, a search for n succeeds; if n was new, it finds that record. */
  lemma FindAfterInsert(links: seq<Link>, k: nat, l: Link, n: string)
    requires k <= |links| && l.name == Some(n)
    ensures FirstNamed(links[..k] + [l] + links[k..], n).Some?
    ensures !HasLink(links, n) ==> FirstNamed(links[..k] + [l] + links[k..], n) == Some(k)
  {
    var after := links[..k] + [l] + links[k..];
    assert after[k] == l;
    if !HasLink(links, n) {
      forall j | 0 <= j < k
        ensures after[j].name != Some(n)
      {
        assert after[j] == links[j];
      }
    }
  }

  /** The record add_link builds; the socket of an end is bound only when that end is this node. */
  function NewLink(peer0: int, port0: int, peer1: int, port1: int, c: int, name: string,
                   myId: int, bindPort: int -> int): Link
  {
    Link(peer0, port0, peer1, port1, c, Some(name),
         if peer0 == myId then bindPort(port0) else -1,
         if peer1 == myId then bindPort(port1) else -1)
  }

  /** Record l has been spliced into before at some position, the other records keeping their order. */
  predicate InsertedSomewhere(before: seq<Link>, after: seq<Link>, l: Link) {
    exists k :: 0 <= k <= |before| && after == before[..k] + [l] + before[k..]
  }

  /**
   * After add_link's record is spliced into a set that had no link of that
   * name, a search for the name finds it: it carries the given peers, ports
   * and cost, and the socket of each end is bound exactly when that end is
   * this node.
   */
  lemma AddedLinkFound(before: seq<Link>, after: seq<Link>,
                       peer0: int, port0: int, peer1: int, port1: int, c: int, name: string,
                       myId: int, bindPort: int -> int)
    requires InsertedSomewhere(before, after, NewLink(peer0, port0, peer1, port1, c, name, myId, bindPort))
    requires !HasLink(before, name)
    ensures FirstNamed(after, name).Some?
    ensures after[FirstNamed(after, name).value].peer0 == peer0 && after[FirstNamed(after, name).value].port0 == port0
    ensures after[FirstNamed(after, name).value].peer1 == peer1 && after[FirstNamed(after, name).value].port1 == port1
    ensures after[FirstNamed(after, name).value].c == c
    ensures after[FirstNamed(after, name).value].sockfd0 == (if peer0 == myId then bindPort(port0) else -1)
    ensures after[FirstNamed(after, name).value].sockfd1 == (if peer1 == myId then bindPort(port1) else -1)
  {
    var l := NewLink(peer0, port0, peer1, port1, c, name, myId, bindPort);
    var k :| 0 <= k <= |before| && after == before[..k] + [l] + before[k..];
    FindAfterInsert(before, k, l, name);
  }

  /** The link set g_ls. */
  class LinkTable {
    /** The head of the circular list; it is not a link. */
    var sentinel: Link
    /** The links, in list order from the head's successor on. */
    var links: seq<Link>

    /** The head is the one record without a name; every link has one. */
    predicate Valid()
      reads this
    {
      && sentinel.name.None?
      && forall k :: 0 <= k < |links| ==> links[k].name.Some?
    }

    /** create_ls: an empty set whose head has both peers and the cost at -1 and no name. */
    constructor CreateLs()
      ensures Valid()
      ensures links == []
      ensures sentinel.peer0 == -1 && sentinel.peer1 == -1 && sentinel.c == -1 && sentinel.name == None
    {
      // The head's ports and sockets are not set by create_ls.
      sentinel := Link(-1, 0, -1, 0, -1, None, 0, 0);
      links := [];
    }

    /**
     * add_link: one more link, carrying the given peers, ports, cost and
     * name; myId is this node's id and bindPort the socket binding, both
     * outside the model. Where the link lands is up to the list's insert,
     * so only "somewhere, the others in order" is promised.
     */
    method AddLink(peer0: int, port0: int, peer1: int, port1: int, c: int, name: string,
                   myId: int, bindPort: int -> int)
      requires Valid()
      modifies this
      ensures Valid()
      ensures sentinel == old(sentinel)
      ensures |links| == |old(links)| + 1
      ensures InsertedSomewhere(old(links), links, NewLink(peer0, port0, peer1, port1, c, name, myId, bindPort))
      ensures forall m :: CountNamed(links, m) == CountNamed(old(links), m) + (if m == name then 1 else 0)
      ensures FirstNamed(links, name).Some?
      ensures !HasLink(old(links), name) ==>
                && links[FirstNamed(links, name).value].sockfd0 == (if peer0 == myId then bindPort(port0) else -1)
                && links[FirstNamed(links, name).value].sockfd1 == (if peer1 == myId then bindPort(port1) else -1)
    {
      var nl := NewLink(peer0, port0, peer1, port1, c, name, myId, bindPort);
      ghost var before := links;
      links := [nl] + links;
      assert links == before[..0] + [nl] + before[0..];
      forall m ensures CountNamed(links, m) == CountNamed(before, m) + (if m == name then 1 else 0) {
        InsertCounts(before, 0, nl, m);
      }
      FindAfterInsert(before, 0, nl, name);
      if !HasLink(before, name) {
        AddedLinkFound(before, links, peer0, port0, peer1, port1, c, name, myId, bindPort);
      }
    }

    /** find_link: the position of the first link named n, or None when there is none. */
    method FindLink(n: string) returns (found: Option<nat>)
      requires Valid()
      ensures found == FirstNamed(links, n)
    {
      var i := 0;
      while i < |links| && links[i].name != Some(n)
        invariant i <= |links|
        invariant forall j :: 0 <= j < i ==> links[j].name != Some(n)
      {
        i := i + 1;
      }
      if i < |links| {
        found := Some(i);
      } else {
        found := None;
      }
    }

    /** ud_link: the first link named n gets the new cost; nothing else changes. The updated link is returned. */
    method UdLink(n: string, cost: int) returns (updated: Link)
      requires Valid() && HasLink(links, n)
      modifies this
      ensures Valid()
      ensures sentinel == old(sentinel)
      ensures FirstNamed(old(links), n).Some?
      ensures links == old(links)[FirstNamed(old(links), n).value := updated]
      ensures updated == old(links)[FirstNamed(old(links), n).value].(c := cost)
      ensures forall m :: FirstNamed(links, m) == FirstNamed(old(links), m)
    {
      var found := FindLink(n);
      var k := found.value;
      updated := links[k].(c := cost);
      forall m ensures FirstNamed(links[k := updated], m) == FirstNamed(links, m) {
        UpdateKeepsSearch(links, k, cost, m);
      }
      links := links[k := updated];
    }

    /** del_link: the first link named n is unlinked; the others keep their order. */
    method DelLink(n: string)
      requires Valid() && HasLink(links, n)
      modifies this
      ensures Valid()
      ensures sentinel == old(sentinel)
      ensures FirstNamed(old(links), n).Some?
      ensures links == old(links)[..FirstNamed(old(links), n).value] + old(links)[FirstNamed(old(links), n).value + 1..]
      ensures forall m :: CountNamed(links, m) == CountNamed(old(links), m) - (if m == n then 1 else 0)
    {
      var found := FindLink(n);
      var k := found.value;
      ghost var before := links;
      links := links[..k] + links[k + 1..];
      forall m ensures CountNamed(links, m) == CountNamed(before, m) - (if m == n then 1 else 0) {
        RemoveCounts(before, k, m);
      }
      assert forall j :: 0 <= j < |links| ==> links[j] == (if j < k then before[j] else before[j + 1]);
    }
  }
}
