/** ProcState, shared by the process table, the scheduler and the interleaving model. */
module ProcStates {

  datatype ProcState = Unused | Ready | Running | Blocked | Zombie
}
