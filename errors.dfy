/** The failures the estimation engine reports instead of a value. */
module Errors {

  datatype Error =
    | NodeNotFound      // networkx raises for a node that is not in the graph
    | EmptyGraph        // a division by the number of nodes, or a draw from the nodes, when there is none
    | InvalidArgument   // math.comb raises for a negative argument

  datatype Result<T> = Ok(value: T) | Err(error: Error)
}
