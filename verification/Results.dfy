/** gos_result_t, the result codes every part of the kernel shares. */
module Results {

  datatype Code = Ok | EInval | ENoMem | ENoSpc | EBusy | ENoSys | ENoEnt
}
