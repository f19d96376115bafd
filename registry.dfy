/** The service registry of Sensorino/Sensorino.cpp: a node keeps up to
    MAX_SERVICES services in an array, in the order they were added, with
    distinct ids.  Adding to a full registry, adding a second service with
    an id already present, and deleting a service that is not registered
    make the node die (print a panic and stop for good); the model returns
    that outcome instead of stopping.

    deleteService and getServiceById use the names serviceNum and service
    where the class declares servicesNum and services; the model reads
    them as the declared members. */
module ServiceRegistry {
  import opened Common

  const MAX_SERVICES := 20

  /** A registered service; only its id matters to the registry. */
  class Service {
    const id: int

    constructor(id: int)
      ensures this.id == id
    {
      this.id := id;
    }
  }

  /** Why the node died. */
  datatype Panic = MaxServicesReached | DuplicateServiceId | DeleteNotFound

  datatype Outcome = Done | Died(reason: Panic)

  /** The index of the first service in `xs` with this id. */
  function IndexById(xs: seq<Service>, id: int): (r: Option<nat>)
    ensures r.Some? ==> r.value < |xs| && xs[r.value].id == id
    ensures forall k :: 0 <= k < |xs| && (r.None? || k < r.value) ==> xs[k].id != id
  {
    if xs == [] then None
    else if xs[0].id == id then Some(0)
    else
      var r := IndexById(xs[1..], id);
      if r.None? then None else Some(r.value + 1)
  }

  /** `xs` without its first occurrence of `s`. */
  function Without(xs: seq<Service>, s: Service): (r: seq<Service>)
    ensures s in xs ==> |r| == |xs| - 1
    ensures s !in xs ==> r == xs
  {
    if xs == [] then []
    else if xs[0] == s then xs[1..]
    else [xs[0]] + Without(xs[1..], s)
  }

  predicate DistinctIds(xs: seq<Service>)
  {
    forall j, k :: 0 <= j < k < |xs| ==> xs[j].id != xs[k].id
  }

  /** Removing the first occurrence of `s`, found at index i, keeps the
      services before and after it in order. */
  lemma {:induction false} WithoutAt(xs: seq<Service>, s: Service, i: nat)
    requires i < |xs| && xs[i] == s && s !in xs[..i]
    ensures Without(xs, s) == xs[..i] + xs[i + 1..]
  {
    if i == 0 {
      assert xs[..0] + xs[1..] == xs[1..];
    } else {
      assert xs[0] != s by { assert xs[0] == xs[..i][0]; }
      assert xs[1..][..i - 1] == xs[1..i];
      WithoutAt(xs[1..], s, i - 1);
      assert xs[..i] == [xs[0]] + xs[1..i];
      assert xs[1..][i..] == xs[i + 1..];
    }
  }

  /** Removing a service from a registry with distinct ids keeps the ids
      distinct. */
  lemma WithoutKeepsDistinct(xs: seq<Service>, s: Service, i: nat)
    requires i < |xs| && xs[i] == s && s !in xs[..i]
    requires DistinctIds(xs)
    ensures DistinctIds(Without(xs, s))
  {
    WithoutAt(xs, s, i);
    var w := Without(xs, s);
    forall j, k | 0 <= j < k < |w|
      ensures w[j].id != w[k].id
    {
      var j', k' := if j < i then j else j + 1, if k < i then k else k + 1;
      assert w[j] == xs[j'] && w[k] == xs[k'];
    }
  }

  class Sensorino {
    const services: array<Service?>
    var servicesNum: int
    /** The registered services, in order. */
    ghost var registered: seq<Service>

    ghost predicate Valid()
      reads this, services
    {
      && services.Length == MAX_SERVICES
      && 0 <= servicesNum <= MAX_SERVICES
      && |registered| == servicesNum
      && (forall k :: 0 <= k < servicesNum ==> services[k] == registered[k])
      && DistinctIds(registered)
    }

    constructor()
      ensures Valid() && registered == [] && fresh(services)
    {
      services := new Service?[MAX_SERVICES](_ => null);
      servicesNum := 0;
      registered := [];
    }

    /** addService: die when the registry is full or the id is taken;
        otherwise append the service. */
    method AddService(s: Service) returns (outcome: Outcome)
      requires Valid()
      modifies this, services
      ensures Valid()
      ensures old(servicesNum) >= MAX_SERVICES ==> outcome == Died(MaxServicesReached)
      ensures old(servicesNum) < MAX_SERVICES && IndexById(old(registered), s.id).Some? ==>
                outcome == Died(DuplicateServiceId)
      ensures outcome.Died? ==> registered == old(registered)
      ensures outcome == Done <==>
                old(servicesNum) < MAX_SERVICES && IndexById(old(registered), s.id).None?
      ensures outcome == Done ==> registered == old(registered) + [s]
    {
      if servicesNum >= MAX_SERVICES {
        return Died(MaxServicesReached);
      }
      var found := GetServiceById(s.id);
      if found != null {
        return Died(DuplicateServiceId);
      }
      services[servicesNum] := s;
      servicesNum := servicesNum + 1;
      registered := registered + [s];
      return Done;
    }

    /** deleteService: find the service by identity, die when it is not
        registered, otherwise shift the later ones down by one. */
    method DeleteService(s: Service) returns (outcome: Outcome)
      requires Valid()
      modifies this, services
      ensures Valid()
      ensures outcome == Done <==> s in old(registered)
      ensures outcome.Died? ==> outcome.reason == DeleteNotFound && registered == old(registered)
      ensures outcome == Done ==> registered == Without(old(registered), s)
    {
      ghost var before := registered;
      var i := 0;
      while i < servicesNum
        invariant 0 <= i <= servicesNum
        invariant s !in before[..i]
      {
        if s == services[i] {
          break;
        }
        assert before[..i + 1] == before[..i] + [before[i]];
        i := i + 1;
      }
      if i >= servicesNum {
        assert before[..i] == before;
        return Died(DeleteNotFound);
      }
      ghost var found := i;
      ghost var after := before[..found] + before[found + 1..];
      servicesNum := servicesNum - 1;
      while i < servicesNum
        invariant servicesNum == |after| && found <= i <= servicesNum
        invariant forall k :: 0 <= k < i ==> services[k] == after[k]
        invariant forall k :: i <= k <= servicesNum ==> services[k] == before[k]
      {
        services[i] := services[i + 1];
        i := i + 1;
      }
      WithoutAt(before, s, found);
      WithoutKeepsDistinct(before, s, found);
      registered := after;
      return Done;
    }

    /** getServiceById: the first registered service with this id, or
        null. */
    method GetServiceById(id: int) returns (s: Service?)
      requires Valid()
      ensures var r := IndexById(registered, id);
        (r.None? <==> s == null) && (r.Some? ==> s == registered[r.value])
    {
      var i := 0;
      while i < servicesNum
        invariant 0 <= i <= servicesNum
        invariant IndexById(registered, id) == Shift(i, IndexById(registered[i..], id))
      {
        if services[i].id == id {
          return services[i];
        }
        assert registered[i..][1..] == registered[i + 1..];
        i := i + 1;
      }
      assert registered[i..] == [];
      return null;
    }

    /** getServiceByNum: the num-th registered service, or null past the
        last one. */
    method GetServiceByNum(num: nat) returns (s: Service?)
      requires Valid()
      ensures num < servicesNum ==> s == registered[num]
      ensures num >= servicesNum ==> s == null
    {
      return if num < servicesNum then services[num] else null;
    }
  }

  function Shift(i: nat, r: Option<nat>): Option<nat>
  {
    if r.None? then None else Some(r.value + i)
  }
}
