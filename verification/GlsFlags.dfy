/** Ended flags shared between goroutines. */
module GlsFlags {

  /** `*atomic.Bool`: one per tracked span, shared by every wrapper of it. */
  class Flag {
    var ended: bool

    constructor ()
      ensures !ended
    {
      ended := false;
    }

    /** `Store(true)`: of the given flags, only this one changes. */
    method Set(ghost flags: set<Flag>)
      requires this in flags
      modifies this
      ensures EndedIn(flags) == old(EndedIn(flags)) + {this}
    {
      ended := true;
    }
  }

  ghost function EndedIn(flags: set<Flag>): set<Flag>
    reads flags
  {
    set f | f in flags && f.ended
  }

  lemma UnsetFlag(flags: set<Flag>, flag: Flag)
    requires flag in flags || !flag.ended
    ensures EndedIn(flags + {flag}) == EndedIn(flags)
  {
  }
}
