/** The slots in memory: httpserver.c on arrays, proved against its specification. */
module HttpServerSlots {
  import opened CStrings
  import opened HttpServer
  import opened HttpServerRuns

  class Server {
    var sockets: array<Client>
    var availableSockets: array<nat>
    var socketsCapacity: nat
    var socketsLength: int

    ghost predicate Valid()
      reads this
    {
      sockets.Length == availableSockets.Length == socketsCapacity
    }

    ghost function View(): State
      reads this, sockets, availableSockets
    {
      State(sockets[..], availableSockets[..], socketsLength)
    }

    /** `httpserver_start_server`, without the listening socket. */
    constructor ()
      ensures Valid() && fresh(sockets) && fresh(availableSockets) && View() == START.server
    {
      sockets := new Client[1] [BLANK];
      availableSockets := new nat[1] [1];
      socketsCapacity, socketsLength := 1, 0;
    }

    /** `_httpserver_add_available_socket`. */
    method AddAvailableSocket(socketIndex: nat)
      requires Valid()
      modifies this`socketsLength, availableSockets
      ensures Valid()
      ensures var i := FirstHole(old(availableSockets[..]), 0);
        if i < socketsCapacity then
          availableSockets[..] == old(availableSockets[..])[i := socketIndex + 1]
          && socketsLength == old(socketsLength) - 1
        else availableSockets[..] == old(availableSockets[..]) && socketsLength == old(socketsLength)
    {
      ghost var was := availableSockets[..];
      for i := 0 to socketsCapacity
        invariant availableSockets[..] == was && socketsLength == old(socketsLength)
        invariant FirstHole(was, 0) == FirstHole(was, i)
      {
        if availableSockets[i] == 0 {
          availableSockets[i] := socketIndex + 1;
          socketsLength := socketsLength - 1;
          return;
        }
      }
    }

    /** `httpserver_disconnect_client`; answers the block it frees. */
    method DisconnectClient(socketIndex: nat) returns (freed: Option<nat>)
      requires Valid() && socketIndex < socketsCapacity
      modifies this`socketsLength, sockets, availableSockets
      ensures Valid() && View() == Disconnected(old(View()), socketIndex)
      ensures freed == old(sockets[socketIndex].threadData)
    {
      freed := sockets[socketIndex].threadData;
      sockets[socketIndex] := sockets[socketIndex].(socket := -1, upgraded := false);
      AddAvailableSocket(socketIndex);
    }

    /** The growth half of `_httpserver_select_position`. */
    method Grow()
      requires Valid() && 0 <= socketsLength < 2 * socketsCapacity
      modifies this`socketsCapacity, this`sockets, this`availableSockets
      ensures Valid() && fresh(sockets) && fresh(availableSockets)
      ensures sockets[..] == old(sockets[..]) + Blanks(old(socketsCapacity))
      ensures availableSockets[..] ==
        (old(availableSockets[..]) + NewOffers(old(socketsCapacity)))[socketsLength := 0]
    {
      var n := socketsCapacity;
      var grownSockets := new Client[2 * n](i requires 0 <= i reads this, sockets =>
        if i < sockets.Length then sockets[i] else Client(None, 0, true, None));
      var grownAvailable := new nat[2 * n](i requires 0 <= i reads this, availableSockets =>
        if i < availableSockets.Length then availableSockets[i] else 0);
      var i := n;
      while i < 2 * n
        invariant n <= i <= 2 * n
        invariant grownSockets[..i] == sockets[..] + Blanks(n)[..i - n]
        invariant grownAvailable[..i] == availableSockets[..] + NewOffers(n)[..i - n]
        modifies grownSockets, grownAvailable
      {
        grownSockets[i] := BLANK;
        grownAvailable[i] := i + 1;
        i := i + 1;
      }
      assert grownSockets[..] == grownSockets[..i] && grownAvailable[..] == grownAvailable[..i];
      assert Blanks(n)[..n] == Blanks(n) && NewOffers(n)[..n] == NewOffers(n);
      grownAvailable[socketsLength] := 0;
      sockets, availableSockets, socketsCapacity := grownSockets, grownAvailable, 2 * n;
    }

    /** `_httpserver_select_position`. */
    method SelectPosition() returns (index: int)
      requires Valid() && Ok(View())
      modifies this`socketsCapacity, this`sockets, this`availableSockets, availableSockets
      ensures Valid() && (View(), index) == Selected(old(View()))
      ensures sockets == old(sockets) || fresh(sockets)
      ensures availableSockets == old(availableSockets) || fresh(availableSockets)
    {
      ghost var was := View();
      var i := 0;
      while i < socketsCapacity
        invariant i <= socketsCapacity && View() == was && Valid()
        invariant sockets == old(sockets) && availableSockets == old(availableSockets)
        invariant FirstOffer(was.available, 0) == FirstOffer(was.available, i)
        decreases socketsCapacity - i
      {
        if availableSockets[i] != 0 {
          index := availableSockets[i] - 1;
          availableSockets[i] := 0;
          return;
        }
        i := i + 1;
      }
      FullMeansLength(was);
      Grow();
      return socketsLength;
    }

    /** One turn of the accept loop of `httpserver_handle_request`. */
    method HandleAccept(threadData: nat) returns (index: int)
      requires Valid() && Ok(View())
      modifies this, sockets, availableSockets
      ensures Valid() && (View(), index) == Accepted(old(View()), threadData)
    {
      AcceptOk(View(), threadData);
      hide Ok;
      index := SelectPosition();
      socketsLength := socketsLength + 1;
      sockets[index] := Client(Some(threadData), 0, false, None);
    }

    method SetSocketData(socketIndex: nat, data: Option<nat>)
      requires Valid() && socketIndex < socketsCapacity
      modifies sockets
      ensures View() == SetAt(old(View()), socketIndex, old(sockets[socketIndex]).(data := data))
      ensures sockets[socketIndex].data == data
    {
      sockets[socketIndex] := sockets[socketIndex].(data := data);
    }

    method GetSocketData(socketIndex: nat) returns (data: Option<nat>)
      requires Valid() && socketIndex < socketsCapacity
      ensures data == View().clients[socketIndex].data
    {
      return sockets[socketIndex].data;
    }

    method UpgradeSocket(socketIndex: nat)
      requires Valid() && socketIndex < socketsCapacity
      modifies sockets
      ensures View() == SetAt(old(View()), socketIndex, old(sockets[socketIndex]).(upgraded := true))
      ensures sockets[socketIndex].upgraded
    {
      sockets[socketIndex] := sockets[socketIndex].(upgraded := true);
    }

    /** `httpserver_stop_server`: which slots are cancelled and which blocks are freed. */
    method StopServer() returns (cancelled: set<nat>, freed: multiset<nat>)
      requires Valid()
      ensures cancelled == LiveSlots(View()) && freed == StopFrees(View().clients)
    {
      cancelled, freed := {}, multiset{};
      for i := 0 to socketsCapacity
        invariant cancelled == set k | 0 <= k < i && sockets[k].Live()
        invariant freed == StopFrees(sockets[..i])
      {
        assert sockets[..i + 1][..i] == sockets[..i];
        if sockets[i].socket != -1 {
          cancelled := cancelled + {i};
          freed := freed + BlockOf(sockets[i]);
        }
      }
      assert sockets[..socketsCapacity] == sockets[..];
    }
  }
}
