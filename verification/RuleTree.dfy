/**
 The rules of the billing filter: clients in a binary tree that lives in an array, exempt
 destinations in a plain list, and a pending copy of both that a swap puts in force.
 */
module RuleTree {
  import opened Common

  type Mac = seq<byte>

  /** A client that may pass. */
  datatype Nic = Nic(uid: nat, ip: word, mac: Mac)

  /** A node of the tree; links are positions in the same array, -1 is no link. */
  datatype Node = Node(rule: Nic, left: int, right: int)

  /** A destination that goes untaxed: for listed clients (1) or for everyone (2). */
  datatype Exempt = Exempt(active: nat, ipMask: word, ipAddr: word, ipProto: nat, portLo: nat, portHi: nat, dlc: nat)

  /** What a packet's header says. */
  datatype Packet = Packet(mac: Mac, dlc: nat, ipClnt: word, ipHost: word, ipProto: nat, portHost: nat)

  const DLC_IPV4 := 8
  const IP_TCP := 6
  const IP_UDP := 17

  // --------------------------------------------------------------------- search

  /** memcmp: negative, zero or positive as `a` is before, at or after `b`. */
  function Compare(a: Mac, b: Mac): (c: int)
    ensures |a| == |b| ==> (c == 0 <==> a == b)
  {
    if a == [] || b == [] then 0
    else if a[0] != b[0] then a[0] as int - b[0] as int
    else
      assert |a| == |b| && a[1..] == b[1..] ==> a == b;
      Compare(a[1..], b[1..])
  }

  /** Children come later in the array than their parents. */
  ghost predicate Linked(pool: seq<Node>) {
    forall k | 0 <= k < |pool| ::
      && (pool[k].left == -1 || k < pool[k].left < |pool|)
      && (pool[k].right == -1 || k < pool[k].right < |pool|)
  }

  /** Where the search for `mac` goes from a node it does not end at. */
  function Turn(node: Node, mac: Mac): int {
    if Compare(node.rule.mac, mac) < 0 then node.left else node.right
  }

  /** Node `k` is on the way of a search for `mac` from node `i` on. */
  ghost predicate OnWay(pool: seq<Node>, i: int, mac: Mac, k: nat)
    requires Linked(pool) && (i == -1 || 0 <= i < |pool|)
    decreases if i == -1 then 0 else |pool| - i
  {
    i != -1 && (i == k || OnWay(pool, Turn(pool[i], mac), mac, k))
  }

  /** A search for any rule's address passes that rule. */
  ghost predicate Searchable(pool: seq<Node>) {
    && Linked(pool)
    && forall k: nat | k < |pool| :: OnWay(pool, 0, pool[k].rule.mac, k)
  }

  predicate IsClient(rule: Nic, mac: Mac, ip: word) {
    rule.mac == mac && rule.ip == ip
  }

  function Rules(pool: seq<Node>): (rules: seq<Nic>)
    ensures |rules| == |pool|
    ensures forall k | 0 <= k < |pool| :: rules[k] == pool[k].rule
  {
    if pool == [] then [] else Rules(pool[..|pool| - 1]) + [pool[|pool| - 1].rule]
  }

  predicate Listed(rules: seq<Nic>, mac: Mac, ip: word) {
    exists k :: 0 <= k < |rules| && IsClient(rules[k], mac, ip)
  }

  /** The tree search from node `i` on. */
  function Found(pool: seq<Node>, i: int, mac: Mac, ip: word): bool
    requires Linked(pool) && (i == -1 || 0 <= i < |pool|)
    decreases if i == -1 then 0 else |pool| - i
  {
    i != -1 &&
    ((Compare(pool[i].rule.mac, mac) == 0 && pool[i].rule.ip == ip) || Found(pool, Turn(pool[i], mac), mac, ip))
  }

  ghost predicate MacsOk(pool: seq<Node>) {
    forall k | 0 <= k < |pool| :: |pool[k].rule.mac| == 6
  }

  lemma {:induction false} FoundOnWay(pool: seq<Node>, i: int, mac: Mac, ip: word, k: nat)
    requires Linked(pool) && MacsOk(pool) && |mac| == 6 && (i == -1 || 0 <= i < |pool|)
    requires k < |pool| && IsClient(pool[k].rule, mac, ip) && OnWay(pool, i, mac, k)
    ensures Found(pool, i, mac, ip)
    decreases |pool| - i
  {
    if i != k { FoundOnWay(pool, Turn(pool[i], mac), mac, ip, k); }
  }

  lemma {:induction false} FoundIsListed(pool: seq<Node>, i: int, mac: Mac, ip: word)
    requires Linked(pool) && MacsOk(pool) && |mac| == 6 && (i == -1 || 0 <= i < |pool|)
    requires Found(pool, i, mac, ip)
    ensures Listed(Rules(pool), mac, ip)
    decreases |pool| - i
  {
    if Compare(pool[i].rule.mac, mac) == 0 && pool[i].rule.ip == ip {
      assert IsClient(Rules(pool)[i], mac, ip);
    } else {
      FoundIsListed(pool, Turn(pool[i], mac), mac, ip);
    }
  }

  /** Tree search finds a client exactly when a look through the whole list would. */
  lemma SearchIsMembership(pool: seq<Node>, mac: Mac, ip: word)
    requires Searchable(pool) && MacsOk(pool) && |mac| == 6
    ensures Found(pool, if pool == [] then -1 else 0, mac, ip) <==> Listed(Rules(pool), mac, ip)
  {
    var root := if pool == [] then -1 else 0;
    if Found(pool, root, mac, ip) { FoundIsListed(pool, root, mac, ip); }
    if Listed(Rules(pool), mac, ip) {
      var k: nat :| k < |pool| && IsClient(Rules(pool)[k], mac, ip);
      FoundOnWay(pool, root, mac, ip, k);
    }
  }

  // ------------------------------------------------------------------ insertion

  /** The node at which the way of `mac` ends, from node `i` on. */
  function Bottom(pool: seq<Node>, i: nat, mac: Mac): (k: nat)
    requires Linked(pool) && i < |pool|
    ensures k < |pool| && Turn(pool[k], mac) == -1
    decreases |pool| - i
  {
    var next := Turn(pool[i], mac);
    if next == -1 then i else Bottom(pool, next, mac)
  }

  /** The array with one more node, hung where the search for its address ended. */
  function Inserted(pool: seq<Node>, rule: Nic): (pool': seq<Node>)
    requires Linked(pool)
    ensures |pool'| == |pool| + 1
    ensures forall k | 0 <= k < |pool| :: pool'[k].rule == pool[k].rule
    ensures pool'[|pool|] == Node(rule, -1, -1)
  {
    var leaf := Node(rule, -1, -1);
    if pool == [] then [leaf] else
    var k := Bottom(pool, 0, rule.mac);
    var parent := if Compare(pool[k].rule.mac, rule.mac) < 0 then pool[k].(left := |pool|)
                  else pool[k].(right := |pool|);
    pool[k := parent] + [leaf]
  }

  lemma {:induction false} InsertedShape(pool: seq<Node>, rule: Nic)
    requires Linked(pool)
    ensures Linked(Inserted(pool, rule))
    ensures Rules(Inserted(pool, rule)) == Rules(pool) + [rule]
    ensures forall k | 0 <= k < |pool| :: Inserted(pool, rule)[k].rule == pool[k].rule
  {
    hide Rules, Compare, Bottom;
    var pool' := Inserted(pool, rule);
    assert forall k | 0 <= k < |pool'| :: Rules(pool')[k] == (Rules(pool) + [rule])[k];
  }

  /** No way is lost by hanging on a node. */
  lemma {:induction false} WayKept(pool: seq<Node>, rule: Nic, i: int, mac: Mac, k: nat)
    requires Linked(pool) && Linked(Inserted(pool, rule)) && (i == -1 || 0 <= i < |pool|)
    requires k < |pool| && OnWay(pool, i, mac, k)
    ensures OnWay(Inserted(pool, rule), i, mac, k)
    decreases |pool| - i
  {
    if i != k {
      var next := Turn(pool[i], mac);
      WayKept(pool, rule, next, mac, k);
      assert Turn(Inserted(pool, rule)[i], mac) == next;
    }
  }

  /** The way of the new node's own address now goes on to it. */
  lemma {:induction false} WayToNew(pool: seq<Node>, rule: Nic, i: nat)
    requires Linked(pool) && Linked(Inserted(pool, rule)) && i < |pool|
    requires Bottom(pool, i, rule.mac) == Bottom(pool, 0, rule.mac)
    ensures OnWay(Inserted(pool, rule), i, rule.mac, |pool|)
    decreases |pool| - i
  {
    var next := Turn(pool[i], rule.mac);
    if next == -1 {
      assert Turn(Inserted(pool, rule)[i], rule.mac) == |pool|;
    } else {
      WayToNew(pool, rule, next);
      assert Turn(Inserted(pool, rule)[i], rule.mac) == next;
    }
  }

  lemma InsertedSearchable(pool: seq<Node>, rule: Nic)
    requires Searchable(pool)
    ensures Searchable(Inserted(pool, rule))
  {
    InsertedShape(pool, rule);
    var pool' := Inserted(pool, rule);
    forall k: nat | k < |pool'| ensures OnWay(pool', 0, pool'[k].rule.mac, k) {
      if k < |pool| { WayKept(pool, rule, 0, pool[k].rule.mac, k); }
      else if pool != [] { WayToNew(pool, rule, 0); }
    }
  }

  lemma NoRules()
    ensures Searchable([]) && MacsOk([]) && Rules([]) == []
  {
  }

  // --------------------------------------------------------- exempt destinations

  predicate Matches(rule: Exempt, pkt: Packet) {
    && rule.dlc == pkt.dlc
    && (pkt.dlc == DLC_IPV4 ==>
          && And(pkt.ipHost, rule.ipMask) == rule.ipAddr
          && (rule.ipProto != 0 ==>
                && pkt.ipProto == rule.ipProto
                && (pkt.ipProto == IP_TCP || pkt.ipProto == IP_UDP ==> rule.portLo <= pkt.portHost <= rule.portHi)))
  }

  /**
   What a rule is for: packets of its own link protocol, and of IPv4 those to its network,
   of its protocol or any, and with TCP and UDP to its ports.
   */
  lemma MatchesIs(rule: Exempt, pkt: Packet)
    ensures pkt.dlc != rule.dlc ==> !Matches(rule, pkt)
    ensures pkt.dlc == rule.dlc && pkt.dlc != DLC_IPV4 ==> Matches(rule, pkt)
    ensures pkt.dlc == rule.dlc == DLC_IPV4 ==>
      (Matches(rule, pkt) <==>
        And(pkt.ipHost, rule.ipMask) == rule.ipAddr
        && (rule.ipProto == 0 || (pkt.ipProto == rule.ipProto &&
             ((pkt.ipProto != IP_TCP && pkt.ipProto != IP_UDP)
              || (rule.portLo <= pkt.portHost && pkt.portHost <= rule.portHi)))))
  {
    hide And;
  }

  /** The rule that decides is the first that matches. */
  lemma {:induction false} FirstMatchIs(rules: seq<Exempt>, pkt: Packet)
    ensures forall k: nat | k < |rules| && Matches(rules[k], pkt)
                            && (forall j | 0 <= j < k :: !Matches(rules[j], pkt)) ::
      FirstMatch(rules, pkt) == rules[k].active
    ensures (forall k | 0 <= k < |rules| :: !Matches(rules[k], pkt)) ==> FirstMatch(rules, pkt) == 0
  {
    hide Matches;
    if rules != [] && !Matches(rules[0], pkt) {
      FirstMatchIs(rules[1..], pkt);
      forall k: nat | k < |rules| && Matches(rules[k], pkt) && (forall j | 0 <= j < k :: !Matches(rules[j], pkt))
        ensures FirstMatch(rules, pkt) == rules[k].active
      {
        assert rules[1..][k - 1] == rules[k];
        assert forall j | 0 <= j < k - 1 :: rules[1..][j] == rules[j + 1];
      }
    }
  }

  /** What the first matching rule says; 0 if none matches. */
  function FirstMatch(rules: seq<Exempt>, pkt: Packet): (active: nat)
    ensures active != 0 ==> exists k :: 0 <= k < |rules| && Matches(rules[k], pkt) && rules[k].active == active
  {
    if rules == [] then 0
    else if Matches(rules[0], pkt) then rules[0].active
    else FirstMatch(rules[1..], pkt)
  }

  // ------------------------------------------------------------------ the module

  /** The filter's rule tables: each kind has a list in force and a pending one. */
  class RuleSet {
    var ExActive: array<Exempt>
    var ExShadow: array<Exempt>
    var ExCount: nat
    var ExActiveCount: nat
    var NcActive: array<Node>
    var NcShadow: array<Node>
    var NcCount: nat
    /** The root of the tree in force: position 0 of `NcActive`, or -1. */
    var NcList: int
    ghost var NcListed: nat

    ghost predicate Valid()
      reads this, ExActive, ExShadow, NcActive, NcShadow
    {
      && ExActive != ExShadow && NcActive != NcShadow
      && ExActive.Length == ExShadow.Length && NcActive.Length == NcShadow.Length
      && ExCount <= ExShadow.Length && ExActiveCount <= ExActive.Length
      && NcCount <= NcShadow.Length && NcListed <= NcActive.Length
      && NcList == (if NcListed == 0 then -1 else 0)
      && Searchable(NcActive[..NcListed]) && MacsOk(NcActive[..NcListed])
      && Searchable(NcShadow[..NcCount]) && MacsOk(NcShadow[..NcCount])
    }

    /** The clients in force, and those added since the last swap. */
    ghost function Clients(): seq<Nic>
      requires Valid()
      reads this, ExActive, ExShadow, NcActive, NcShadow
    {
      Rules(NcActive[..NcListed])
    }

    ghost function PendingClients(): seq<Nic>
      requires Valid()
      reads this, ExActive, ExShadow, NcActive, NcShadow
    {
      Rules(NcShadow[..NcCount])
    }

    ghost function Exempts(): seq<Exempt>
      requires Valid()
      reads this, ExActive, ExShadow, NcActive, NcShadow
    {
      ExActive[..ExActiveCount]
    }

    ghost function PendingExempts(): seq<Exempt>
      requires Valid()
      reads this, ExActive, ExShadow, NcActive, NcShadow
    {
      ExShadow[..ExCount]
    }

    /** rule_init_lists. */
    constructor (exLimit: nat, ncLimit: nat)
      ensures Valid() && fresh(ExActive) && fresh(ExShadow) && fresh(NcActive) && fresh(NcShadow)
      ensures ExShadow.Length == exLimit && NcShadow.Length == ncLimit
      ensures Clients() == PendingClients() == [] && Exempts() == PendingExempts() == []
    {
      ExActive, ExShadow := new Exempt[exLimit], new Exempt[exLimit];
      NcActive, NcShadow := new Node[ncLimit], new Node[ncLimit];
      ExCount, ExActiveCount, NcCount, NcList, NcListed := 0, 0, 0, -1, 0;
    }

    /** rule_match_client: 1 exactly if some rule in force has this address pair. */
    method MatchClient(mac: Mac, ip: word) returns (result: nat)
      requires Valid() && |mac| == 6
      ensures result == if Listed(Clients(), mac, ip) then 1 else 0
    {
      ghost var pool := NcActive[..NcListed];
      SearchIsMembership(pool, mac, ip);
      var i := NcList;
      while i != -1
        invariant i == -1 || 0 <= i < NcListed
        invariant Found(pool, i, mac, ip) == Listed(Clients(), mac, ip)
        decreases if i == -1 then 0 else NcListed - i
      {
        var node := NcActive[i];
        assert node == pool[i];
        var c := Compare(node.rule.mac, mac);
        if c == 0 && node.rule.ip == ip { return 1; }
        i := if c < 0 then node.left else node.right;
      }
      return 0;
    }

    /** rule_match_exempt. */
    method MatchExempt(pkt: Packet) returns (result: nat)
      requires Valid()
      ensures result == FirstMatch(Exempts(), pkt)
    {
      for i := 0 to ExActiveCount
        invariant FirstMatch(Exempts()[i..], pkt) == FirstMatch(Exempts(), pkt)
      {
        var rule := ExActive[i];
        assert rule == Exempts()[i..][0] && Exempts()[i..][1..] == Exempts()[i + 1..];
        if Matches(rule, pkt) { return rule.active; }
      }
      return 0;
    }

    /** rule_add_exempt. */
    method AddExempt(rule: Exempt) returns (ok: bool)
      requires Valid()
      modifies `ExCount, ExShadow
      ensures Valid() && ok == (|old(PendingExempts())| < ExShadow.Length)
      ensures PendingExempts() == if ok then old(PendingExempts()) + [rule] else old(PendingExempts())
      ensures Exempts() == old(Exempts()) && Clients() == old(Clients())
      ensures PendingClients() == old(PendingClients())
    {
      if ExCount == ExShadow.Length { return false; }
      ExShadow[ExCount] := rule;
      ExCount := ExCount + 1;
      return true;
    }

    /** rule_add_nic: the rule goes into the pending tree; what is in force does not change. */
    method AddNic(rule: Nic) returns (ok: bool)
      requires Valid() && |rule.mac| == 6
      modifies `NcCount, NcShadow
      ensures Valid() && ok == (|old(PendingClients())| < NcShadow.Length)
      ensures PendingClients() == if ok then old(PendingClients()) + [rule] else old(PendingClients())
      ensures Clients() == old(Clients()) && Exempts() == old(Exempts())
      ensures PendingExempts() == old(PendingExempts())
    {
      if NcCount == NcShadow.Length { return false; }
      ghost var pool := NcShadow[..NcCount];
      InsertedShape(pool, rule);
      InsertedSearchable(pool, rule);
      NcShadow[NcCount] := Node(rule, -1, -1);
      if NcCount != 0 { Hang(rule, pool); }
      NcCount := NcCount + 1;
      assert NcShadow[..NcCount] == Inserted(pool, rule);
      return true;
    }

    /** Walk to the end of the new address's way and link the new node in there. */
    method Hang(rule: Nic, ghost pool: seq<Node>)
      requires NcCount < NcShadow.Length && pool == NcShadow[..NcCount] && pool != [] && Linked(pool)
      modifies NcShadow
      ensures NcShadow[..NcCount] == Inserted(pool, rule)[..NcCount]
      ensures forall k | NcCount <= k < NcShadow.Length :: NcShadow[k] == old(NcShadow[k])
    {
      var i := 0;
      while true
        invariant 0 <= i < NcCount && NcShadow[..NcCount] == pool
        invariant Bottom(pool, i, rule.mac) == Bottom(pool, 0, rule.mac)
        invariant forall k | NcCount <= k < NcShadow.Length :: NcShadow[k] == old(NcShadow[k])
        decreases NcCount - i
      {
        var node := NcShadow[i];
        assert node == pool[i];
        if Compare(node.rule.mac, rule.mac) < 0 {
          if node.left == -1 {
            NcShadow[i] := node.(left := NcCount);
            break;
          }
          i := node.left;
        } else {
          if node.right == -1 {
            NcShadow[i] := node.(right := NcCount);
            break;
          }
          i := node.right;
        }
      }
    }

    /** rule_swap_lists: what was pending is in force, and nothing is pending. */
    method Swap()
      requires Valid()
      modifies this
      ensures Valid() && Clients() == old(PendingClients()) && Exempts() == old(PendingExempts())
      ensures PendingClients() == [] && PendingExempts() == []
      ensures {ExActive, ExShadow} == old({ExActive, ExShadow}) && {NcActive, NcShadow} == old({NcActive, NcShadow})
    {
      hide Searchable, MacsOk, Rules;
      NoRules();
      ExActive, ExActiveCount, ExShadow, ExCount := ExShadow, ExCount, ExActive, 0;
      NcList := if NcCount == 0 then -1 else 0;
      NcListed := NcCount;
      NcCount := 0;
      NcActive, NcShadow := NcShadow, NcActive;
    }
  }
}
