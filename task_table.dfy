/** The task table's per-track "Update" buttons: each review track of a task
    row (development, quality assurance, final sign-off) has its own state,
    and its button proposes the next state in the cycle
    todo -> in-progress -> completed -> todo for that track alone. */
module TaskTable {
  import opened TaskTypes

  /** The review tracks, in the order of the table's columns. */
  datatype Track = Dev | Qa | Final

  const Tracks: seq<Track> := [Dev, Qa, Final]

  /** The per-track fields of a task row that the table reads. */
  datatype TrackedTask = TrackedTask(
    id: string,
    devStatus: Status,
    qaStatus: Status,
    finalStatus: Status)

  /** `task[`${type}_status`]`: the state of one track. */
  function StatusOn(t: TrackedTask, track: Track): Status
  {
    match track
    case Dev => t.devStatus
    case Qa => t.qaStatus
    case Final => t.finalStatus
  }

  /** The suggested next state: todo to in-progress, in-progress to
      completed, and completed back to todo. */
  function NextStatus(s: Status): (r: Status)
    ensures r != s
    ensures s == Todo ==> r == InProgress
    ensures s == InProgress ==> r == Completed
    ensures s == Completed ==> r == Todo
  {
    match s
    case Todo => InProgress
    case InProgress => Completed
    case Completed => Todo
  }

  /** The inverse of NextStatus: the state whose successor is `s`. */
  function PreviousStatus(s: Status): (r: Status)
    ensures NextStatus(r) == s
    ensures r != s
  {
    match s
    case Todo => Completed
    case InProgress => Todo
    case Completed => InProgress
  }

  /** PreviousStatus undoes NextStatus, so NextStatus is a bijection on the
      three states: each state is the successor of exactly one state. */
  lemma NextStatusBijection(s: Status)
    ensures PreviousStatus(NextStatus(s)) == s
    ensures forall p :: NextStatus(p) == s <==> p == PreviousStatus(s)
  {
  }

  /** Three steps return to the start and two steps do not, so the cycle
      has length exactly three. */
  lemma NextStatusCycle(s: Status)
    ensures NextStatus(NextStatus(NextStatus(s))) == s
    ensures NextStatus(NextStatus(s)) != s
  {
  }

  /** The arguments an "Update" button passes to `onStatusChange`. */
  datatype StatusChangeRequest = StatusChangeRequest(taskId: string, track: Track, newStatus: Status)

  /** The proposal of one track's button: the task's id, the track, and the
      successor of that track's current state. */
  function Proposal(t: TrackedTask, track: Track): (r: StatusChangeRequest)
    ensures r.taskId == t.id && r.track == track
    ensures r.newStatus != StatusOn(t, track)
    ensures PreviousStatus(r.newStatus) == StatusOn(t, track)
  {
    StatusChangeRequest(t.id, track, NextStatus(StatusOn(t, track)))
  }

  /** A proposal depends only on the task's id and the proposing track's own
      state: changing the other two tracks does not change it. */
  lemma ProposalIgnoresOtherTracks(t: TrackedTask, u: TrackedTask, track: Track)
    requires t.id == u.id && StatusOn(t, track) == StatusOn(u, track)
    ensures Proposal(t, track) == Proposal(u, track)
  {
  }

  /** The buttons of one row, one per column: entry `k` proposes a change
      to track `Tracks[k]`, and each track is proposed exactly once. */
  function RowProposals(t: TrackedTask): (r: seq<StatusChangeRequest>)
    ensures |r| == |Tracks|
    ensures forall k :: 0 <= k < |r| ==>
      r[k].taskId == t.id && r[k].track == Tracks[k] && r[k].newStatus == NextStatus(StatusOn(t, Tracks[k]))
    ensures forall track: Track :: Proposal(t, track) in r
    ensures forall i, j :: 0 <= i < j < |r| ==> r[i].track != r[j].track
  {
    var r := seq(|Tracks|, k requires 0 <= k < |Tracks| => Proposal(t, Tracks[k]));
    assert r[0].track == Dev && r[1].track == Qa && r[2].track == Final;
    r
  }
}
