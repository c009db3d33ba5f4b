/** The rules of project2/src/Main.java kept by this model: which tree a
    service name selects, the skill gains and losses, the loyalty tiers, and
    what `register_customer` and `register_freelancer` check and store.

    The static tables of the program become the fields of `Marketplace`; the
    customer table and the freelancer table (the program's own hash table,
    whose source is not part of this model) are maps keyed by id. */
module Platform {
  import opened Lang
  import opened FreelancerTrees

  /** The ten service names, in the order of the cases of `getServiceTree`. */
  const Services: seq<string> :=
    ["paint", "web_dev", "graphic_design", "data_entry", "tutoring",
     "cleaning", "writing", "photography", "plumbing", "electrical"]

  /** Which of the ten trees `getServiceTree(name)` returns; None where it
      returns null. */
  function ServiceIndex(name: string): (k: Option<nat>)
    ensures k.Some? <==> name in Services
    ensures k.Some? ==> k.value < |Services| && Services[k.value] == name
  {
    if name == "paint" then Some(0)
    else if name == "web_dev" then Some(1)
    else if name == "graphic_design" then Some(2)
    else if name == "data_entry" then Some(3)
    else if name == "tutoring" then Some(4)
    else if name == "cleaning" then Some(5)
    else if name == "writing" then Some(6)
    else if name == "photography" then Some(7)
    else if name == "plumbing" then Some(8)
    else if name == "electrical" then Some(9)
    else None
  }

  /** How many of the five entries equal v. */
  function Count5(g: seq<int>, v: int): nat
    requires |g| == 5
  {
    (if g[0] == v then 1 else 0) + (if g[1] == v then 1 else 0) + (if g[2] == v then 1 else 0) +
    (if g[3] == v then 1 else 0) + (if g[4] == v then 1 else 0)
  }

  /** One primary skill gains 2, two secondaries gain 1, the other two nothing. */
  predicate PrimaryAndTwoSecondaries(g: seq<int>)
  {
    |g| == 5 && Count5(g, 2) == 1 && Count5(g, 1) == 2 && Count5(g, 0) == 2
  }

  /** What `updateFreelancerSkills` adds to (T, C, R, E, A) for a service:
      +2 to a primary skill and +1 to two secondaries, nothing for a service
      it does not know. The gains follow the service's skill-score weights:
      a skill gains more than another only if it weighs at least as much. */
  function SkillGains(service: string): (g: seq<int>)
    ensures |g| == 5 && forall i | 0 <= i < 5 :: 0 <= g[i] <= 2
    ensures ServiceIndex(service).None? ==> g == [0, 0, 0, 0, 0]
    ensures ServiceIndex(service).Some? ==> PrimaryAndTwoSecondaries(g)
    ensures forall i, j | 0 <= i < 5 && 0 <= j < 5 && g[i] > g[j] ::
      SkillWeights(service)[i] >= SkillWeights(service)[j]
  {
    match ServiceIndex(service)
    case None => [0, 0, 0, 0, 0]
    case Some(k) => GainRow(k)
  }

  /** The gains of the k-th case of `updateFreelancerSkills`, in the order
      of `Services`. */
  function GainRow(k: nat): (g: seq<int>)
    requires k < |Services|
    ensures |g| == 5 && forall i | 0 <= i < 5 :: 0 <= g[i] <= 2
    ensures PrimaryAndTwoSecondaries(g)
    ensures forall i, j | 0 <= i < 5 && 0 <= j < 5 && g[i] > g[j] :: WeightRow(k)[i] >= WeightRow(k)[j]
  {
    if k == 0 then [1, 0, 0, 1, 2]        // paint: A +2, T and E +1
    else if k == 1 then [2, 0, 1, 0, 1]   // web_dev: T +2, R and A +1
    else if k == 2 then [0, 1, 2, 0, 1]   // graphic_design: R +2, C and A +1
    else if k == 3 then [1, 0, 0, 2, 1]   // data_entry: E +2, T and A +1
    else if k == 4 then [1, 2, 0, 1, 0]   // tutoring: C +2, T and E +1
    else if k == 5 then [0, 1, 0, 2, 1]   // cleaning: E +2, C and A +1
    else if k == 6 then [0, 1, 1, 0, 2]   // writing: A +2, C and R +1
    else if k == 7 then [1, 0, 2, 0, 1]   // photography: R +2, T and A +1
    else if k == 8 then [1, 0, 0, 2, 1]   // plumbing: E +2, T and A +1
    else [1, 0, 0, 2, 1]                  // electrical: E +2, T and A +1
  }

  /** The weights of (T, C, R, E, A) in `Freelancer.skillScore` for a service
      (all 0 for a service it does not know). */
  function SkillWeights(service: string): (w: seq<int>)
    ensures |w| == 5
  {
    match ServiceIndex(service)
    case None => [0, 0, 0, 0, 0]
    case Some(k) => WeightRow(k)
  }

  /** The weights of the k-th case of `skillScore`, in the order of `Services`. */
  function WeightRow(k: nat): (w: seq<int>)
    ensures |w| == 5
  {
    if k == 0 then [70, 60, 50, 85, 90]
    else if k == 1 then [95, 75, 85, 80, 90]
    else if k == 2 then [75, 85, 95, 70, 85]
    else if k == 3 then [50, 50, 30, 95, 95]
    else if k == 4 then [80, 95, 70, 90, 75]
    else if k == 5 then [40, 60, 40, 90, 85]
    else if k == 6 then [70, 85, 90, 80, 95]
    else if k == 7 then [85, 80, 90, 75, 90]
    else if k == 8 then [85, 65, 60, 90, 85]
    else [90, 65, 70, 95, 95]
  }

  /** `updateFreelancerSkills(freelancer)`: the service's gains, then a cap of
      100 on every skill. No skill ends above 100, and a skill that was at
      most 100 does not drop and rises by at most its gain. */
  function UpdateFreelancerSkills(f: Freelancer): (g: Freelancer)
    requires |f.skills| == 5
    ensures g == f.(skills := g.skills) && |g.skills| == 5
    ensures forall i | 0 <= i < 5 :: g.skills[i] == Min(100, f.skills[i] + SkillGains(f.service)[i])
    ensures forall i | 0 <= i < 5 :: g.skills[i] <= 100
    ensures forall i | 0 <= i < 5 && f.skills[i] <= 100 ::
      f.skills[i] <= g.skills[i] <= f.skills[i] + SkillGains(f.service)[i]
  {
    var gain := SkillGains(f.service);
    var t := f.skills[0] + gain[0];
    var c := f.skills[1] + gain[1];
    var r := f.skills[2] + gain[2];
    var e := f.skills[3] + gain[3];
    var a := f.skills[4] + gain[4];
    f.(skills := [Min(100, t), Min(100, c), Min(100, r), Min(100, e), Min(100, a)])
  }

  /** `skillDegradation(freelancer)`: every skill loses 3, floored at 0. */
  method SkillDegradation(f: Freelancer) returns (g: Freelancer)
    ensures g == f.(skills := g.skills) && |g.skills| == |f.skills|
    ensures forall i | 0 <= i < |f.skills| :: g.skills[i] == Max(0, f.skills[i] - 3)
    ensures forall i | 0 <= i < |f.skills| :: 0 <= g.skills[i] && f.skills[i] - 3 <= g.skills[i]
  {
    var skills := f.skills;
    for i := 0 to |skills|
      invariant |skills| == |f.skills|
      invariant forall j | 0 <= j < i :: skills[j] == Max(0, f.skills[j] - 3)
      invariant forall j | i <= j < |skills| :: skills[j] == f.skills[j]
    {
      skills := skills[i := Max(0, skills[i] - 3)];
    }
    g := f.(skills := skills);
  }

  datatype Tier = Bronze | Silver | Gold | Platinum

  function TierRank(t: Tier): nat
  {
    match t
    case Bronze => 0
    case Silver => 1
    case Gold => 2
    case Platinum => 3
  }

  /** The tier `updateLoyaltyTier` assigns: its rank is the number of the
      thresholds 500, 2000 and 5000 that the points reach. */
  function LoyaltyTier(points: int): (t: Tier)
    ensures TierRank(t) ==
      (if points >= 500 then 1 else 0) + (if points >= 2000 then 1 else 0) + (if points >= 5000 then 1 else 0)
  {
    if points < 500 then Bronze
    else if points < 2000 then Silver
    else if points < 5000 then Gold
    else Platinum
  }

  /** More points never mean a lower tier. */
  lemma {:induction false} LoyaltyTierMonotone(p: int, q: int)
    requires p <= q
    ensures TierRank(LoyaltyTier(p)) <= TierRank(LoyaltyTier(q))
  {
  }

  /** project2/src/Customer.java; the blacklist (a hash table of freelancers
      keyed by id in the source) is the set of their ids. */
  class Customer {
    const id: string
    var totalSpent: int
    var loyaltyTier: Tier
    var blacklisted: set<string>
    var employCount: int
    var loyaltyPoints: int

    constructor(id: string)
      ensures this.id == id && totalSpent == 0 && loyaltyTier == Bronze
      ensures blacklisted == {} && employCount == 0 && loyaltyPoints == 0
    {
      this.id := id;
      totalSpent := 0;
      loyaltyTier := Bronze;
      blacklisted := {};
      employCount := 0;
      loyaltyPoints := 0;
    }
  }

  /** `updateLoyaltyTier(customer)`: the tier follows the points; nothing
      else about the customer changes. */
  method UpdateLoyaltyTier(customer: Customer)
    modifies customer
    ensures customer.loyaltyTier == LoyaltyTier(customer.loyaltyPoints)
    ensures customer.loyaltyPoints == old(customer.loyaltyPoints) && customer.totalSpent == old(customer.totalSpent)
    ensures customer.blacklisted == old(customer.blacklisted) && customer.employCount == old(customer.employCount)
  {
    var points := customer.loyaltyPoints;
    if points < 500 {
      customer.loyaltyTier := Bronze;
    } else if points < 2000 {
      customer.loyaltyTier := Silver;
    } else if points < 5000 {
      customer.loyaltyTier := Gold;
    } else {
      customer.loyaltyTier := Platinum;
    }
  }

  /** Every skill of a registration within 0..100. */
  predicate SkillsInRange(t: int, c: int, r: int, e: int, a: int)
  {
    0 <= t <= 100 && 0 <= c <= 100 && 0 <= r <= 100 && 0 <= e <= 100 && 0 <= a <= 100
  }

  /** The static state of the program that the two registration commands
      touch: the customer and freelancer tables and the ten service trees. */
  class Marketplace {
    var customers: map<string, Customer>
    var freelancers: map<string, Freelancer>
    const trees: seq<AvlTree>

    /** Ten distinct trees, each in search order, holding only registered
        freelancers. */
    ghost predicate Valid()
      reads this, trees
    {
      |trees| == |Services| &&
      (forall i, j | 0 <= i < j < |trees| :: trees[i] != trees[j]) &&
      (forall k | 0 <= k < |trees| :: Ordered(trees[k].root)) &&
      (forall k, f | 0 <= k < |trees| && f in Contents(trees[k].root) :: f.id in freelancers)
    }

    constructor()
      ensures Valid() && customers == map[] && freelancers == map[]
      ensures forall k | 0 <= k < |trees| :: trees[k].root == Nil
    {
      customers := map[];
      freelancers := map[];
      var ts := NewTrees(|Services|);
      trees := ts;
    }

    /** `n` new, empty and distinct trees: the source allocates one per
        service, in order. */
    static method NewTrees(n: nat) returns (ts: seq<AvlTree>)
      ensures |ts| == n
      ensures forall i | 0 <= i < n :: fresh(ts[i]) && ts[i].root == Nil
      ensures forall i, j | 0 <= i < j < n :: ts[i] != ts[j]
    {
      if n == 0 {
        return [];
      }
      ts := NewTrees(n - 1);
      var t := new AvlTree();
      ts := ts + [t];
    }

    /** `getServiceTree(name)`: the tree of a known service, else null. */
    function GetServiceTree(name: string): (t: Option<AvlTree>)
      requires |trees| == |Services|
      ensures t.Some? <==> name in Services
      ensures t.Some? ==> t.value == trees[ServiceIndex(name).value]
    {
      match ServiceIndex(name)
      case None => None
      case Some(k) => Some(trees[k])
    }

    /** `register_customer id`: the duplicate check only sets an error
        message that the next statement overwrites, so the customer is
        always stored, replacing any customer with that id, and the command
        reports success. */
    method RegisterCustomer(id: string) returns (ok: bool)
      requires Valid()
      modifies this
      ensures Valid() && ok
      ensures id in customers && fresh(customers[id])
      ensures customers[id].id == id && customers[id].loyaltyTier == Bronze && customers[id].loyaltyPoints == 0
      ensures customers == old(customers)[id := customers[id]]
      ensures freelancers == old(freelancers)
    {
      var customer := new Customer(id);
      customers := customers[id := customer];
      ok := true;
    }

    /** `register_freelancer id service price T C R E A`: rejected, with
        nothing changed, when a skill is outside 0..100, the id is taken by
        a freelancer or a customer, the service is unknown or the price is
        not positive; otherwise the freelancer is stored and inserted into
        its service's tree. `score` is the composite score that
        `updateCompScore` computes for the new freelancer. */
    method RegisterFreelancer(id: string, service: string, price: int,
                              t: int, c: int, r: int, e: int, a: int, score: int)
      returns (ok: bool)
      requires Valid()
      modifies this, trees
      ensures Valid()
      ensures ok <==> SkillsInRange(t, c, r, e, a) && id !in old(freelancers) && id !in customers &&
                      service in Services && price > 0
      ensures !ok ==> freelancers == old(freelancers) &&
                      forall k | 0 <= k < |trees| :: trees[k].root == old(trees[k].root)
      ensures ok ==>
        var f := Freelancer(id, service, price, score, [t, c, r, e, a]);
        var k := ServiceIndex(service).value;
        freelancers == old(freelancers)[id := f] &&
        trees[k].root == Insert(old(trees[k].root), f) &&
        Contents(trees[k].root) == Contents(old(trees[k].root)) + {f} &&
        forall j | 0 <= j < |trees| && j != k :: trees[j].root == old(trees[j].root)
      ensures customers == old(customers)
    {
      if t < 0 || t > 100 || c < 0 || c > 100 || r < 0 || r > 100 || e < 0 || e > 100 || a < 0 || a > 100 {
        return false;
      }
      if id in freelancers || GetServiceTree(service).None? || id in customers {
        return false;
      }
      if price <= 0 {
        return false;
      }
      var f := Freelancer(id, service, price, score, [t, c, r, e, a]);
      var tree := GetServiceTree(service).value;
      ghost var k := ServiceIndex(service).value;
      ghost var old0 := tree.root;
      FreshIdAbsent(k, f);
      InsertCorrect(tree.root, f);
      freelancers := freelancers[id := f];
      tree.root := Insert(tree.root, f);
      assert Contents(tree.root) == Contents(old0) + {f};
      assert forall j | 0 <= j < |trees| && j != k :: trees[j].root == old(trees[j].root);
      ok := true;
    }

    /** No tree holds a freelancer with an unregistered id. */
    lemma FreshIdAbsent(k: int, f: Freelancer)
      requires Valid() && 0 <= k < |trees| && f.id !in freelancers
      ensures !HasKey(trees[k].root, f)
    {
    }

    /** The ten service names select ten different trees. */
    lemma ServiceTreesDistinct(a: string, b: string)
      requires Valid() && a in Services && b in Services && a != b
      ensures GetServiceTree(a) != GetServiceTree(b)
    {
      var ka, kb := ServiceIndex(a).value, ServiceIndex(b).value;
      assert Services[ka] == a && Services[kb] == b;
    }
  }
}
