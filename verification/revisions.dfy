/** The three generations of the core that the command and variable
    functions exist in. */
module Revisions {
  datatype Revision =
    | Current  // src/commands.c and src/variables.c
    | Core     // src/uzbl-core.c, before the split into several files
    | Legacy   // uzbl-core.c at the top of the tree, the oldest
}
