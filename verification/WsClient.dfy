/** The agent's end of a connection: each list it reads is applied to the interface, and a failure only logged. */
module WsClient {
  import opened Wrappers
  import opened WgSpec
  import opened WgManager
  import opened Protocol

  class Client {
    const kernel: Kernel
    var inbox: seq<seq<PeerInfo>>
    var last: Option<seq<PeerInfo>>
    var clean: bool

    constructor (kernel: Kernel)
      ensures this.kernel == kernel && AsAgent() == Agent(kernel.State(), [], None, false)
    {
      this.kernel, inbox, last, clean := kernel, [], None, false;
    }

    /** The agent as the protocol sees it. */
    ghost function AsAgent(): Agent
      reads this, kernel
    {
      Agent(kernel.State(), inbox, last, clean)
    }

    /** applyPeerList: `up` says whether the interface could be set up; if not, nothing is reconciled. */
    method ApplyPeerList(peers: seq<PeerInfo>, up: bool) returns (ok: bool)
      requires kernel.Valid()
      modifies kernel
      ensures kernel.Valid()
      ensures ok <==> up && (kernel.show == Works || kernel.show == Fails(""))
                      && kernel.refusals == old(kernel.refusals)
      ensures ok && kernel.show == Works ==> kernel.State() == Reconciled(old(kernel.State()), peers, kernel.stuck)
      ensures ok && kernel.show == Fails("") ==> kernel.State() == AddedAll(old(kernel.State()), peers)
      ensures kernel.refusals <= old(kernel.refusals) + 1
      ensures !up ==> unchanged(kernel)
      ensures Attempt(old(kernel.State()), peers, kernel.stuck, kernel.State())
    {
      if !up {
        WithoutNone(kernel.State(), kernel.stuck);
        assert StoppedRemoving(kernel.State(), peers, kernel.stuck, kernel.State());
        return false;
      }
      ok := Reconcile(kernel, peers);
    }

    /**
     * One turn of connectOnce's read loop; `registered` tells the reply to a registration from a later list. The list
     * is applied cleanly exactly if the peers could be read, no command that matters was refused and, for a reply,
     * the interface was set up.
     */
    method ReadMessage(registered: bool, up: bool)
      requires kernel.Valid() && inbox != []
      modifies this, kernel
      ensures kernel.Valid()
      ensures clean <==> kernel.show == Works && kernel.refusals == old(kernel.refusals) && (registered ==> up)
      ensures clean ==> kernel.State() == Reconciled(old(kernel.State()), old(inbox)[0], kernel.stuck)
      ensures kernel.show == Fails("") && kernel.refusals == old(kernel.refusals) && (registered ==> up) ==>
                kernel.State() == AddedAll(old(kernel.State()), old(inbox)[0])
      ensures kernel.refusals <= old(kernel.refusals) + 1
      ensures registered && !up ==> unchanged(kernel)
      ensures Delivers(old(AsAgent()), kernel.stuck, clean, kernel.State())
      ensures AsAgent() == Agent(kernel.State(), old(inbox)[1..], Some(old(inbox)[0]), clean)
    {
      var peers, ok := inbox[0], false;
      if registered {
        ok := ApplyPeerList(peers, up);
      } else {
        ok := Reconcile(kernel, peers);
      }
      inbox, last, clean := inbox[1..], Some(peers), ok && kernel.show == Works;
    }
  }
}
