/** The records of the SUSE scheduler that the source updates in place. */
module SuseRecords {

  datatype Status = New | Ready | Executing | Blocked | Exited

  class Thread {
    const tid: int
    const procesoId: int
    var estado: Status
    var duracionRafaga: real      // start of the burst while executing, length of the last one otherwise
    var estimacion: real
    var ejecutado: bool           // a burst is still to be folded into the estimate
    var joinedBy: seq<Thread>
    var joinTo: seq<Thread>
    ghost var bursts: seq<real>   // the lengths of the finished bursts

    constructor (tid: int, procesoId: int)
      ensures this.tid == tid && this.procesoId == procesoId && estado == New
      ensures duracionRafaga == estimacion == 0.0 && !ejecutado && bursts == []
      ensures joinedBy == joinTo == []
    {
      this.tid, this.procesoId, estado := tid, procesoId, New;
      duracionRafaga, estimacion, ejecutado, bursts := 0.0, 0.0, false, [];
      joinedBy, joinTo := [], [];
    }
  }

  class Process {
    const id: int
    var ults: seq<Thread>
    var readyList: seq<Thread>
    var exec: Thread?
    var semaforoReady: int

    constructor (id: int)
      ensures this.id == id && ults == readyList == [] && exec == null && semaforoReady == 0
    {
      this.id, ults, readyList, exec, semaforoReady := id, [], [], null, 0;
    }
  }

  class Semaphore {
    const name: string
    const init: int
    const max: int
    var value: int
    var blockedList: seq<Thread>
    ghost var signals: nat        // signals accepted
    ghost var waits: nat
    ghost var asked: seq<Thread>  // every thread blocked here, in the order of blocking
    ghost var woken: seq<Thread>  // every thread woken here, in the order of waking

    constructor (name: string, init: int, max: int)
      ensures this.name == name && this.init == init && this.max == max && value == init
      ensures blockedList == asked == woken == [] && signals == waits == 0
    {
      this.name, this.init, this.max, value := name, init, max, init;
      blockedList, asked, woken, signals, waits := [], [], [], 0, 0;
    }
  }
}
