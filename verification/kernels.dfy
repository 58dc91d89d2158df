/** The compiled-in kernel table and the lookup from a filter name to its entry. */
module Kernels {
  import opened ImageTypes

  /** The filters the program offers; the order is the order of the kernel table. */
  datatype KernelType = Edge | Sharpen | Blur | GaussBlur | Emboss | Identity

  /** The kernel table `algorithms`, one matrix per filter. */
  function Algorithms(t: KernelType): Matrix
  {
    match t
    case Edge      => [[0.0, -1.0, 0.0], [-1.0, 4.0, -1.0], [0.0, -1.0, 0.0]]
    case Sharpen   => [[0.0, -1.0, 0.0], [-1.0, 5.0, -1.0], [0.0, -1.0, 0.0]]
    case Blur      => [[1.0 / 9.0, 1.0 / 9.0, 1.0 / 9.0],
                       [1.0 / 9.0, 1.0 / 9.0, 1.0 / 9.0],
                       [1.0 / 9.0, 1.0 / 9.0, 1.0 / 9.0]]
    case GaussBlur => [[1.0 / 16.0, 1.0 / 8.0, 1.0 / 16.0],
                       [1.0 / 8.0, 1.0 / 4.0, 1.0 / 8.0],
                       [1.0 / 16.0, 1.0 / 8.0, 1.0 / 16.0]]
    case Emboss    => [[-2.0, -1.0, 0.0], [-1.0, 1.0, 1.0], [0.0, 1.0, 2.0]]
    case Identity  => [[0.0, 0.0, 0.0], [0.0, 1.0, 0.0], [0.0, 0.0, 0.0]]
  }

  /** Sum of the nine weights of a kernel. */
  function KernelSum(k: Matrix): real
  {
    k[0][0] + k[0][1] + k[0][2] + k[1][0] + k[1][1] + k[1][2] + k[2][0] + k[2][1] + k[2][2]
  }

  /** A kernel whose only non-zero weight is a 1 at the centre. */
  predicate IsIdentityKernel(k: Matrix)
  {
    k[1][1] == 1.0 &&
    k[0][0] == 0.0 && k[0][1] == 0.0 && k[0][2] == 0.0 && k[1][0] == 0.0 &&
    k[1][2] == 0.0 && k[2][0] == 0.0 && k[2][1] == 0.0 && k[2][2] == 0.0
  }

  /** Maps a filter name to its filter; every name that is not one of the five
      known ones selects the identity filter, which copies the image. */
  function GetKernelType(name: string): (t: KernelType)
    ensures t == Edge <==> name == "edge"
    ensures t == Sharpen <==> name == "sharpen"
    ensures t == Blur <==> name == "blur"
    ensures t == GaussBlur <==> name == "gauss"
    ensures t == Emboss <==> name == "emboss"
    ensures t == Identity <==> name !in {"edge", "sharpen", "blur", "gauss", "emboss"}
  {
    if name == "edge" then Edge
    else if name == "sharpen" then Sharpen
    else if name == "blur" then Blur
    else if name == "gauss" then GaussBlur
    else if name == "emboss" then Emboss
    else Identity
  }

  /** The last table entry is the identity kernel; no other entry is. */
  lemma IdentityEntry(t: KernelType)
    ensures IsIdentityKernel(Algorithms(t)) <==> t == Identity
  {
  }

  /** The smoothing, sharpening and embossing kernels preserve a flat field
      (weights sum to 1); the edge kernel maps it to 0 (weights sum to 0). */
  lemma KernelSums(t: KernelType)
    ensures KernelSum(Algorithms(t)) == if t == Edge then 0.0 else 1.0
  {
  }
}
