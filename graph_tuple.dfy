/** One parsed edge record: the parent (dependee) name, the child (dependent) name, the latency. */
module GraphTuples {

  datatype GraphTuple = GraphTuple(parentName: string, childName: string, latency: int)
}
