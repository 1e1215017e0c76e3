/**
 The socket: system calls that transfer any positive part of what is asked for,
 and the loops of hsocket_send and hsocket_recv around them.
 */
module Sockets {

  /**
   `inbox` is what the peer has sent and will send, `sent` what went out. `schedule`
   decides how much each system call transfers: one byte more than its first
   entry, as far as possible; everything once it is used up.
   */
  class Socket {
    var inbox: string
    var sent: string
    var schedule: seq<nat>
    var bytesReceived: nat

    constructor (inbox: string, schedule: seq<nat>)
      ensures this.inbox == inbox && this.schedule == schedule && sent == "" && bytesReceived == 0
    {
      this.inbox, this.schedule, sent, bytesReceived := inbox, schedule, "", 0;
    }

    /** The size of the next transfer of at most `n` bytes. */
    method NextPiece(n: nat) returns (k: nat)
      modifies this`schedule
      ensures k <= n && (n > 0 ==> k > 0)
    {
      k := n;
      if schedule != [] {
        if schedule[0] + 1 < n {
          k := schedule[0] + 1;
        }
        schedule := schedule[1..];
      }
    }

    /** hsocket_send: repeats the call until nothing is left. The bytes sent are added to the count of received ones. */
    method Send(bytes: string)
      modifies this`sent, this`schedule, this`bytesReceived
      ensures sent == old(sent) + bytes && bytesReceived == old(bytesReceived) + |bytes|
    {
      var total, n := 0, |bytes|;
      while true
        invariant total + n == |bytes| && 0 <= total && 0 <= n
        invariant sent == old(sent) + bytes[..total] && bytesReceived == old(bytesReceived) + total
        decreases n
      {
        var size := NextPiece(n);
        sent := sent + bytes[total..total + size];
        assert bytes[..total + size] == bytes[..total] + bytes[total..total + size];
        bytesReceived := bytesReceived + size;
        n, total := n - size, total + size;
        if n <= 0 {
          break;
        }
      }
      assert bytes[..total] == bytes;
    }

    /**
     hsocket_recv with force: repeats the call until `total` bytes have arrived, or
     fails when nothing more comes before the timeout.
     */
    method Recv(dest: array<char>, off: nat, total: nat) returns (ok: bool)
      requires 0 < total && off + total <= dest.Length
      modifies this`inbox, this`schedule, this`bytesReceived, dest
      ensures ok <==> total <= |old(inbox)|
      ensures ok ==> inbox == old(inbox)[total..] && dest[off..off + total] == old(inbox)[..total]
      ensures forall j :: 0 <= j < dest.Length && !(off <= j < off + total) ==> dest[j] == old(dest[j])
      ensures ok ==> bytesReceived == old(bytesReceived) + total
    {
      var totalRead := 0;
      while totalRead != total
        invariant totalRead <= total && totalRead <= |old(inbox)| && inbox == old(inbox)[totalRead..]
        invariant forall j :: off <= j < off + totalRead ==> dest[j] == old(inbox)[j - off]
        invariant forall j :: 0 <= j < dest.Length && !(off <= j < off + total) ==> dest[j] == old(dest[j])
        invariant bytesReceived == old(bytesReceived) + totalRead
        decreases total - totalRead
      {
        if inbox == "" {
          return false;
        }
        var most := if |inbox| < total - totalRead then |inbox| else total - totalRead;
        var count := NextPiece(most);
        forall k | 0 <= k < count {
          dest[off + totalRead + k] := inbox[k];
        }
        inbox := inbox[count..];
        bytesReceived := bytesReceived + count;
        totalRead := totalRead + count;
      }
      return true;
    }
  }
}
