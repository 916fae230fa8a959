// Choosing the TCP and UDP node ports of the Kubo swarm service.
module NodePorts {
  import opened Strings
  import opened Wrappers

  const DEFAULT_PORT := 32355
  const PORT_MIN := 30000
  const PORT_MAX := 32767

  datatype ServicePort = ServicePort(name: Option<string>, nodePort: Option<nat>)
  datatype Service = Service(namespace: Option<string>, name: Option<string>, ports: seq<ServicePort>)

  predicate IsOwn(s: Service, namespace: string, release: string) {
    s.namespace == Some(namespace) && s.name == Some(release + "-swarm")
  }

  // ---- pickFreeNodePort ----

  function NextFree(used: set<nat>, from: nat, limit: nat): (r: Option<nat>)
    ensures r.Some? ==>
      from <= r.value < limit && r.value !in used && forall q: nat :: from <= q < r.value ==> q in used
    ensures r.None? ==> forall q: nat :: from <= q < limit ==> q in used
    decreases limit - from
  {
    if from >= limit then None
    else if from !in used then Some(from)
    else NextFree(used, from + 1, limit)
  }

  function Pick(used: set<nat>, preferred: nat): Option<nat> {
    var r := NextFree(used, preferred, PORT_MAX + 1);
    if r.Some? then r else NextFree(used, PORT_MIN, preferred)
  }

  method PickFreeNodePort(used: set<nat>, preferred: nat) returns (r: Option<nat>)
    ensures r == Pick(used, preferred)
  {
    var candidate: nat := preferred;
    while candidate <= PORT_MAX
      invariant NextFree(used, candidate, PORT_MAX + 1) == NextFree(used, preferred, PORT_MAX + 1)
      decreases PORT_MAX - candidate
    {
      if candidate !in used { return Some(candidate); }
      candidate := candidate + 1;
    }
    candidate := PORT_MIN;
    while candidate < preferred
      invariant NextFree(used, candidate, preferred) == NextFree(used, PORT_MIN, preferred)
      decreases preferred - candidate
    {
      if candidate !in used { return Some(candidate); }
      candidate := candidate + 1;
    }
    r := None;
  }

  // The k-th port after the preferred one, going round the range.
  function Cyclic(preferred: nat, k: nat): nat {
    PORT_MIN + (preferred - PORT_MIN + k) % (PORT_MAX - PORT_MIN + 1)
  }

  lemma CyclicValue(preferred: nat, k: nat)
    requires PORT_MIN <= preferred <= PORT_MAX && k <= PORT_MAX - PORT_MIN
    ensures Cyclic(preferred, k) ==
            if preferred + k <= PORT_MAX then preferred + k else preferred + k - (PORT_MAX - PORT_MIN + 1)
  {
  }

  // The pick is the first free port in cyclic order from the preferred one, and
  // fails exactly when every port of the range is used.
  lemma PickIsFirstCyclic(used: set<nat>, preferred: nat)
    requires PORT_MIN <= preferred <= PORT_MAX
    ensures Pick(used, preferred).Some? ==> exists k: nat ::
      k <= PORT_MAX - PORT_MIN && Pick(used, preferred).value == Cyclic(preferred, k) &&
      Cyclic(preferred, k) !in used &&
      forall j: nat :: j < k ==> Cyclic(preferred, j) in used
    ensures Pick(used, preferred).None? <==> forall q: nat :: PORT_MIN <= q <= PORT_MAX ==> q in used
  {
    var n := PORT_MAX - PORT_MIN + 1;
    forall k: nat | k < n
      ensures Cyclic(preferred, k) == if preferred + k <= PORT_MAX then preferred + k else preferred + k - n
    {
      CyclicValue(preferred, k);
    }
    var r := Pick(used, preferred);
    if r.Some? {
      var k: nat := if r.value >= preferred then r.value - preferred else r.value - preferred + n;
      assert r.value == Cyclic(preferred, k);
    }
  }

  // ---- Ports of the services ----

  // find: the first own service, its first port of that name; zero is no port.
  function OwnPort(services: seq<Service>, namespace: string, release: string, portName: string): (r: Option<string>)
    ensures r.Some? ==> r.value != ""
  {
    if services == [] then None
    else if IsOwn(services[0], namespace, release) then NamedPort(services[0].ports, portName)
    else OwnPort(services[1..], namespace, release, portName)
  }

  function NamedPort(ports: seq<ServicePort>, portName: string): (r: Option<string>)
    ensures r.Some? ==> r.value != ""
  {
    if ports == [] then None
    else if ports[0].name == Some(portName) then
      (if ports[0].nodePort.Some? && ports[0].nodePort.value != 0 then Some(Decimal(ports[0].nodePort.value)) else None)
    else NamedPort(ports[1..], portName)
  }

  function UsedNodePorts(services: seq<Service>): set<nat> {
    set s, p | s in services && p in s.ports && p.nodePort.Some? && p.nodePort.value != 0 :: p.nodePort.value
  }

  function PortText(p: ServicePort): string {
    if p.nodePort.Some? then Decimal(p.nodePort.value) else "undefined"
  }

  predicate Serves(s: Service, port: string) {
    exists p :: p in s.ports && PortText(p) == port
  }

  // Some other service has this port.
  predicate Occupied(services: seq<Service>, namespace: string, release: string, port: string) {
    exists s :: s in services && !IsOwn(s, namespace, release) && Serves(s, port)
  }

  // ---- The selection ----

  // A requested port is honoured unless it is empty or another service has it.
  function Honoured(services: seq<Service>, namespace: string, release: string,
                    requested: Option<string>): Option<string>
  {
    if requested.Some? && requested.value != "" && !Occupied(services, namespace, release, requested.value)
    then requested else None
  }

  // Before any free port is looked for: the request, else the port the release
  // already has.
  function Kept(services: seq<Service>, namespace: string, release: string, requested: Option<string>,
                portName: string): Option<string>
  {
    var honoured := Honoured(services, namespace, release, requested);
    if honoured.Some? then honoured else OwnPort(services, namespace, release, portName)
  }

  // What is not kept gets one free port, shared by both protocols; when there is
  // none, TCP gets the default and UDP follows TCP.
  function Select(services: seq<Service>, namespace: string, release: string, envTcp: Option<string>,
                  envUdp: Option<string>): (string, string)
  {
    var tcp := Kept(services, namespace, release, envTcp, "swarm-tcp");
    var udp := Kept(services, namespace, release, envUdp, "swarm-udp");
    var free := Pick(UsedNodePorts(services), DEFAULT_PORT);
    var spare := if free.Some? then Decimal(free.value) else tcp.GetOr(Decimal(DEFAULT_PORT));
    (tcp.GetOr(spare), udp.GetOr(spare))
  }

  // The first unless it is missing or blank, else the second.
  function Or(x: Option<string>, y: Option<string>): Option<string> {
    if x.Some? && x.value != "" then x else y
  }

  // Drops a request another service occupies, then falls back to the own port.
  method KeepPort(services: seq<Service>, namespace: string, release: string, requested: Option<string>,
                  portName: string)
    returns (port: Option<string>)
    ensures port == Kept(services, namespace, release, requested, portName)
    ensures port.Some? ==> port.value != ""
  {
    port := requested;
    if port.Some? && port.value != "" && Occupied(services, namespace, release, port.value) {
      port := None;
    }
    port := Or(port, OwnPort(services, namespace, release, portName));
  }

  // The handler, with its two reassigned variables; services is None when the
  // cluster cannot be read.
  method SelectPorts(services: Option<seq<Service>>, namespace: string, release: string, envTcp: Option<string>,
                     envUdp: Option<string>)
    returns (tcpPort: string, udpPort: string)
    ensures services.Some? ==> (tcpPort, udpPort) == Select(services.value, namespace, release, envTcp, envUdp)
    ensures services.None? ==>
      tcpPort == Or(envTcp, Some(Decimal(DEFAULT_PORT))).value && udpPort == Or(envUdp, Some(tcpPort)).value
  {
    var tcp, udp := envTcp, envUdp;
    if services.Some? {
      var ss := services.value;
      tcp := KeepPort(ss, namespace, release, tcp, "swarm-tcp");
      udp := KeepPort(ss, namespace, release, udp, "swarm-udp");
      if tcp.None? || udp.None? {
        var nextFreePort := PickFreeNodePort(UsedNodePorts(ss), DEFAULT_PORT);
        if nextFreePort.Some? {
          tcp := Or(tcp, Some(Decimal(nextFreePort.value)));
          udp := Or(udp, Some(Decimal(nextFreePort.value)));
        }
      }
    }
    tcp := Or(tcp, Some(Decimal(DEFAULT_PORT)));
    udp := Or(udp, tcp);
    tcpPort, udpPort := tcp.value, udp.value;
  }

  // ---- Ports as numbers ----

  // The number the chart takes a port text for, if it is one. Many texts can
  // stand for one number; the decimal text of a number always does.
  type PortReader = string -> Option<nat>

  ghost predicate ReadsDecimals(read: PortReader) {
    forall n: nat :: read(Decimal(n)) == Some(n)
  }

  // Some other service has this port.
  predicate HeldByOther(services: seq<Service>, namespace: string, release: string, port: nat) {
    exists s :: s in services && !IsOwn(s, namespace, release) && HasPort(s, port)
  }

  predicate HasPort(s: Service, port: nat) {
    exists p :: p in s.ports && p.nodePort == Some(port)
  }

  // A chosen text clashes: its number is a port of another service.
  predicate Clashes(read: PortReader, services: seq<Service>, namespace: string, release: string, text: string) {
    read(text).Some? && HeldByOther(services, namespace, release, read(text).value)
  }

  lemma PortTextExact(p: ServicePort, port: nat)
    ensures PortText(p) == Decimal(port) <==> p.nodePort == Some(port)
  {
    if p.nodePort.None? {
      assert "undefined"[0] != Decimal(port)[0];
    } else if PortText(p) == Decimal(port) {
      DecimalInjective(p.nodePort.value, port);
    }
  }

  lemma ServesExactly(s: Service, port: nat)
    ensures Serves(s, Decimal(port)) <==> HasPort(s, port)
  {
    forall p | p in s.ports ensures PortText(p) == Decimal(port) <==> p.nodePort == Some(port) {
      PortTextExact(p, port);
    }
  }

  // On decimal texts, the textual comparison of the code is the numeric one.
  lemma OccupiedExactly(services: seq<Service>, namespace: string, release: string, port: nat)
    ensures Occupied(services, namespace, release, Decimal(port)) <==> HeldByOther(services, namespace, release, port)
  {
    forall s | s in services ensures Serves(s, Decimal(port)) <==> HasPort(s, port) {
      ServesExactly(s, port);
    }
  }

  lemma FreePortIsUnheld(services: seq<Service>, namespace: string, release: string, port: nat)
    requires port != 0 && port !in UsedNodePorts(services)
    ensures !HeldByOther(services, namespace, release, port)
  {
  }

  // ---- Main results ----

  lemma PickInRange(used: set<nat>)
    ensures Pick(used, DEFAULT_PORT).Some? ==>
      PORT_MIN <= Pick(used, DEFAULT_PORT).value <= PORT_MAX && Pick(used, DEFAULT_PORT).value !in used
  {
  }

  // A request is honoured under a text that is not the decimal of its number, and
  // another service has that number.
  predicate HonouredInDisguise(read: PortReader, services: seq<Service>, namespace: string, release: string,
                               requested: Option<string>)
  {
    var honoured := Honoured(services, namespace, release, requested);
    && honoured.Some? && read(honoured.value).Some? && honoured.value != Decimal(read(honoured.value).value)
    && HeldByOther(services, namespace, release, read(honoured.value).value)
  }

  // The release's own port is kept and shared with another service.
  predicate KeptShared(read: PortReader, services: seq<Service>, namespace: string, release: string,
                       requested: Option<string>, portName: string)
  {
    var own := OwnPort(services, namespace, release, portName);
    && Honoured(services, namespace, release, requested).None? && own.Some?
    && Clashes(read, services, namespace, release, own.value)
  }

  // What is kept for one protocol clashes, by one of the two.
  predicate KeptClashes(read: PortReader, services: seq<Service>, namespace: string, release: string,
                        requested: Option<string>, portName: string)
  {
    || HonouredInDisguise(read, services, namespace, release, requested)
    || KeptShared(read, services, namespace, release, requested, portName)
  }

  lemma KeptClashesExactly(read: PortReader, services: seq<Service>, namespace: string, release: string,
                           requested: Option<string>, portName: string)
    requires ReadsDecimals(read)
    ensures var kept := Kept(services, namespace, release, requested, portName);
      kept.Some? ==> (Clashes(read, services, namespace, release, kept.value) <==>
                      KeptClashes(read, services, namespace, release, requested, portName))
    ensures Kept(services, namespace, release, requested, portName).None? ==>
      !KeptClashes(read, services, namespace, release, requested, portName)
  {
    var honoured := Honoured(services, namespace, release, requested);
    if honoured.Some? && read(honoured.value).Some? {
      OccupiedExactly(services, namespace, release, read(honoured.value).value);
    }
  }

  // Nothing is kept, no port is free, and another service has the default port.
  predicate DefaultTaken(services: seq<Service>, namespace: string, release: string, requested: Option<string>,
                         portName: string)
  {
    && Kept(services, namespace, release, requested, portName).None?
    && Pick(UsedNodePorts(services), DEFAULT_PORT).None?
    && HeldByOther(services, namespace, release, DEFAULT_PORT)
  }

  lemma SpareClashes(read: PortReader, services: seq<Service>, namespace: string, release: string)
    requires ReadsDecimals(read)
    ensures var free := Pick(UsedNodePorts(services), DEFAULT_PORT);
      free.Some? ==> !Clashes(read, services, namespace, release, Decimal(free.value))
    ensures Clashes(read, services, namespace, release, Decimal(DEFAULT_PORT)) <==>
            HeldByOther(services, namespace, release, DEFAULT_PORT)
  {
    PickInRange(UsedNodePorts(services));
    var free := Pick(UsedNodePorts(services), DEFAULT_PORT);
    if free.Some? { FreePortIsUnheld(services, namespace, release, free.value); }
  }

  // Exactly when a chosen port is a port of another service. TCP: what is kept
  // clashes, or the default is taken. UDP: what is kept clashes, or nothing is
  // kept, no port is free, and TCP clashes.
  lemma ClashExactly(read: PortReader, services: seq<Service>, namespace: string, release: string,
                     envTcp: Option<string>, envUdp: Option<string>)
    requires ReadsDecimals(read)
    ensures var (tcp, udp) := Select(services, namespace, release, envTcp, envUdp);
      var full := Pick(UsedNodePorts(services), DEFAULT_PORT).None?;
      var tcpClashes := KeptClashes(read, services, namespace, release, envTcp, "swarm-tcp") ||
                        DefaultTaken(services, namespace, release, envTcp, "swarm-tcp");
      && (Clashes(read, services, namespace, release, tcp) <==> tcpClashes)
      && (Clashes(read, services, namespace, release, udp) <==>
            KeptClashes(read, services, namespace, release, envUdp, "swarm-udp") ||
            (Kept(services, namespace, release, envUdp, "swarm-udp").None? && full && tcpClashes))
  {
    KeptClashesExactly(read, services, namespace, release, envTcp, "swarm-tcp");
    KeptClashesExactly(read, services, namespace, release, envUdp, "swarm-udp");
    SpareClashes(read, services, namespace, release);
  }

  // A request that is absent, blank or the decimal text of a number.
  predicate IsCanonical(read: PortReader, requested: Option<string>) {
    requested.Some? && requested.value != "" && read(requested.value).Some? ==>
      requested.value == Decimal(read(requested.value).value)
  }

  predicate SharesOwnPort(read: PortReader, services: seq<Service>, namespace: string, release: string,
                          portName: string)
  {
    var own := OwnPort(services, namespace, release, portName);
    own.Some? && Clashes(read, services, namespace, release, own.value)
  }

  // In particular: with canonical requests, a free port left and own ports not
  // shared, no other service holds either choice.
  lemma NoClash(read: PortReader, services: seq<Service>, namespace: string, release: string,
                envTcp: Option<string>, envUdp: Option<string>)
    requires ReadsDecimals(read) && IsCanonical(read, envTcp) && IsCanonical(read, envUdp)
    requires exists p: nat :: PORT_MIN <= p <= PORT_MAX && p !in UsedNodePorts(services)
    requires !SharesOwnPort(read, services, namespace, release, "swarm-tcp")
    requires !SharesOwnPort(read, services, namespace, release, "swarm-udp")
    ensures var (tcp, udp) := Select(services, namespace, release, envTcp, envUdp);
      !Clashes(read, services, namespace, release, tcp) && !Clashes(read, services, namespace, release, udp)
  {
    PickIsFirstCyclic(UsedNodePorts(services), DEFAULT_PORT);
    ClashExactly(read, services, namespace, release, envTcp, envUdp);
  }

  // ---- Re-running ----

  function Others(services: seq<Service>, namespace: string, release: string): seq<Service> {
    if services == [] then []
    else
      (if IsOwn(services[0], namespace, release) then [] else [services[0]]) +
      Others(services[1..], namespace, release)
  }

  // The cluster after the chart is applied: the other services, and the release's
  // own one with the chosen ports.
  function Applied(services: seq<Service>, namespace: string, release: string, tcp: nat, udp: nat): seq<Service> {
    Others(services, namespace, release) +
    [Service(Some(namespace), Some(release + "-swarm"),
             [ServicePort(Some("swarm-tcp"), Some(tcp)), ServicePort(Some("swarm-udp"), Some(udp))])]
  }

  lemma {:induction false} OthersContent(services: seq<Service>, namespace: string, release: string, s: Service)
    ensures s in Others(services, namespace, release) <==> s in services && !IsOwn(s, namespace, release)
  {
    if services == [] {
    } else {
      OthersContent(services[1..], namespace, release, s);
    }
  }

  lemma AppliedOccupied(services: seq<Service>, namespace: string, release: string, tcp: nat, udp: nat, port: string)
    ensures Occupied(Applied(services, namespace, release, tcp, udp), namespace, release, port) <==>
            Occupied(services, namespace, release, port)
  {
    var applied := Applied(services, namespace, release, tcp, udp);
    forall s ensures s in applied && !IsOwn(s, namespace, release) <==> s in services && !IsOwn(s, namespace, release) {
      OthersContent(services, namespace, release, s);
    }
  }

  lemma {:induction false} OwnPortSkips(others: seq<Service>, own: Service, namespace: string, release: string,
                                        portName: string)
    requires forall s :: s in others ==> !IsOwn(s, namespace, release)
    requires IsOwn(own, namespace, release)
    ensures OwnPort(others + [own], namespace, release, portName) == NamedPort(own.ports, portName)
  {
    if others == [] {
      assert others + [own] == [own];
    } else {
      assert (others + [own])[0] == others[0] && (others + [own])[1..] == others[1..] + [own];
      assert others[0] in others;
      OwnPortSkips(others[1..], own, namespace, release, portName);
    }
  }

  lemma AppliedOwnPorts(services: seq<Service>, namespace: string, release: string, tcp: nat, udp: nat)
    requires tcp != 0 && udp != 0
    ensures var applied := Applied(services, namespace, release, tcp, udp);
      && OwnPort(applied, namespace, release, "swarm-tcp") == Some(Decimal(tcp))
      && OwnPort(applied, namespace, release, "swarm-udp") == Some(Decimal(udp))
  {
    var others := Others(services, namespace, release);
    var ports := [ServicePort(Some("swarm-tcp"), Some(tcp)), ServicePort(Some("swarm-udp"), Some(udp))];
    var own := Service(Some(namespace), Some(release + "-swarm"), ports);
    forall s | s in others ensures !IsOwn(s, namespace, release) { OthersContent(services, namespace, release, s); }
    OwnPortSkips(others, own, namespace, release, "swarm-tcp");
    OwnPortSkips(others, own, namespace, release, "swarm-udp");
    assert ports[1..][0] == ports[1];
    assert "swarm-tcp"[6] != "swarm-udp"[6];
  }

  lemma RerunKeeps(services: seq<Service>, namespace: string, release: string, requested: Option<string>,
                   portName: string, tcp: nat, udp: nat)
    requires tcp != 0 && udp != 0 && portName in ["swarm-tcp", "swarm-udp"]
    ensures var applied := Applied(services, namespace, release, tcp, udp);
      var honoured := Honoured(services, namespace, release, requested);
      && Honoured(applied, namespace, release, requested) == honoured
      && Kept(applied, namespace, release, requested, portName) ==
         (if honoured.Some? then honoured else Some(Decimal(if portName == "swarm-tcp" then tcp else udp)))
  {
    AppliedOwnPorts(services, namespace, release, tcp, udp);
    if requested.Some? { AppliedOccupied(services, namespace, release, tcp, udp, requested.value); }
  }

  // Re-running after the choice has been applied, with whatever numbers the chart
  // took the two texts for, picks the same numbers.
  lemma RerunIsStable(read: PortReader, services: seq<Service>, namespace: string, release: string,
                      envTcp: Option<string>, envUdp: Option<string>, tcp: nat, udp: nat)
    requires ReadsDecimals(read) && tcp != 0 && udp != 0
    ensures var (tcpText, udpText) := Select(services, namespace, release, envTcp, envUdp);
      read(tcpText) == Some(tcp) && read(udpText) == Some(udp) ==>
      var applied := Applied(services, namespace, release, tcp, udp);
      var (tcpAgain, udpAgain) := Select(applied, namespace, release, envTcp, envUdp);
      read(tcpAgain) == Some(tcp) && read(udpAgain) == Some(udp)
  {
    RerunKeeps(services, namespace, release, envTcp, "swarm-tcp", tcp, udp);
    RerunKeeps(services, namespace, release, envUdp, "swarm-udp", tcp, udp);
  }

  // ---- What is chosen, by the inputs ----

  // Another service has a port of this text.
  ghost predicate TextTaken(services: seq<Service>, namespace: string, release: string, text: string) {
    exists s, p ::
      && s in services && p in s.ports && PortText(p) == text
      && !(s.namespace == Some(namespace) && s.name == Some(release + "-swarm"))
  }

  lemma OccupiedIsTaken(services: seq<Service>, namespace: string, release: string, text: string)
    ensures Occupied(services, namespace, release, text) <==> TextTaken(services, namespace, release, text)
  {
    if Occupied(services, namespace, release, text) {
      var s :| s in services && !IsOwn(s, namespace, release) && Serves(s, text);
      var p :| p in s.ports && PortText(p) == text;
    }
    if TextTaken(services, namespace, release, text) {
      var s, p :| s in services && p in s.ports && PortText(p) == text && !IsOwn(s, namespace, release);
      assert Serves(s, text);
    }
  }

  lemma PortTextMeaning(p: ServicePort)
    ensures p.nodePort.Some? ==> PortText(p) == Decimal(p.nodePort.value)
    ensures p.nodePort.None? ==> PortText(p) == "undefined"
  {
  }

  lemma UsedExactly(services: seq<Service>, n: nat)
    ensures n in UsedNodePorts(services) <==>
            n != 0 && exists s, p :: s in services && p in s.ports && p.nodePort == Some(n)
  {
  }

  // A request that is not blank is honoured unless another service has its text;
  // otherwise the release's own port is kept.
  lemma KeptExactly(services: seq<Service>, namespace: string, release: string, requested: Option<string>,
                    portName: string)
    ensures var kept := Kept(services, namespace, release, requested, portName);
      if requested.Some? && requested.value != "" && !TextTaken(services, namespace, release, requested.value)
      then kept == requested
      else kept == OwnPort(services, namespace, release, portName)
  {
    if requested.Some? { OccupiedIsTaken(services, namespace, release, requested.value); }
  }

  // The own port is that of the first own service, its first port of the name; none
  // when that is unset or zero.
  lemma {:induction false} OwnPortFirst(before: seq<Service>, own: Service, after: seq<Service>,
                                        namespace: string, release: string, portName: string)
    requires own.namespace == Some(namespace) && own.name == Some(release + "-swarm")
    requires forall s :: s in before ==> !(s.namespace == Some(namespace) && s.name == Some(release + "-swarm"))
    ensures OwnPort(before + [own] + after, namespace, release, portName) == NamedPort(own.ports, portName)
  {
    var all := before + [own] + after;
    if before == [] {
      assert all[0] == own;
    } else {
      assert all[0] == before[0] && all[1..] == before[1..] + [own] + after;
      assert before[0] in before;
      OwnPortFirst(before[1..], own, after, namespace, release, portName);
    }
  }

  lemma {:induction false} NoOwnPort(services: seq<Service>, namespace: string, release: string, portName: string)
    requires forall s :: s in services ==> !(s.namespace == Some(namespace) && s.name == Some(release + "-swarm"))
    ensures OwnPort(services, namespace, release, portName) == None
  {
    if services == [] {
    } else {
      assert services[0] in services;
      NoOwnPort(services[1..], namespace, release, portName);
    }
  }

  lemma {:induction false} NamedPortFirst(before: seq<ServicePort>, port: ServicePort, after: seq<ServicePort>,
                                          portName: string)
    requires port.name == Some(portName) && forall p :: p in before ==> p.name != Some(portName)
    ensures NamedPort(before + [port] + after, portName) ==
            if port.nodePort.Some? && port.nodePort.value != 0 then Some(Decimal(port.nodePort.value)) else None
  {
    var all := before + [port] + after;
    if before == [] {
      assert all[0] == port;
    } else {
      assert all[0] == before[0] && all[1..] == before[1..] + [port] + after;
      assert before[0] in before;
      NamedPortFirst(before[1..], port, after, portName);
    }
  }

  // What is not kept gets the first free port from 32355 on, the same for both
  // protocols; when there is none, TCP gets 32355 and UDP follows TCP.
  lemma SelectExactly(services: seq<Service>, namespace: string, release: string,
                      envTcp: Option<string>, envUdp: Option<string>)
    ensures var (tcp, udp) := Select(services, namespace, release, envTcp, envUdp);
      var keptTcp := Kept(services, namespace, release, envTcp, "swarm-tcp");
      var keptUdp := Kept(services, namespace, release, envUdp, "swarm-udp");
      var free := Pick(UsedNodePorts(services), 32355);
      && (keptTcp.Some? ==> tcp == keptTcp.value)
      && (keptTcp.None? && free.Some? ==> tcp == Decimal(free.value))
      && (keptTcp.None? && free.None? ==> tcp == Decimal(32355))
      && (keptUdp.Some? ==> udp == keptUdp.value)
      && (keptUdp.None? && free.Some? ==> udp == Decimal(free.value))
      && (keptUdp.None? && free.None? ==> udp == tcp)
  {
  }

  // From 32355 the search goes up to 32767 and then on from 30000; it fails when none of
  // those ports is free.
  lemma PickFromDefault(used: set<nat>)
    ensures match Pick(used, 32355)
      case Some(p) =>
        && 30000 <= p <= 32767 && p !in used
        && (p >= 32355 ==> forall q: nat :: 32355 <= q < p ==> q in used)
        && (p < 32355 ==> forall q: nat :: 32355 <= q <= 32767 || 30000 <= q < p ==> q in used)
      case None => forall q: nat :: 30000 <= q <= 32767 ==> q in used
  {
  }
}
